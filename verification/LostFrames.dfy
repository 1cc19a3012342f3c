/**
 Frames that nobody can reach any more (kern/syscall.c:107-129).  sys_allocate_page
 takes its frame before it looks at its arguments and does not give it back.
 */
module LostFrames {
  import opened Words
  import opened Paging
  import opened ReferenceCounts
  import opened Runs
  import BitForms

  // Neither free nor held by the kernel nor named by an entry.
  ghost function Lost(s: State, r: Roots): set<nat>
    requires |r.pins| == |s.refs|
  {
    set f: nat | f < |s.refs| && f !in s.free && r.pins[f] == 0 && Naming(s, r, f) == {}
  }

  // In a good state these are the frames with count 0 that are not free.
  ghost function Idle(s: State): set<nat> {
    set f: nat | f < |s.refs| && f !in s.free && s.refs[f] == 0
  }

  lemma LostIsIdle(s: State, r: Roots)
    requires Inv(s, r)
    ensures Lost(s, r) == Idle(s)
  {
    forall f: nat | f < |s.refs| ensures s.refs[f] == 0 <==> r.pins[f] == 0 && Naming(s, r, f) == {} {
      assert s.refs[f] == r.pins[f] + |Naming(s, r, f)|;
    }
  }

  lemma UnmapIdle(s: State, r: Roots, d: nat, va: Word)
    requires Inv(s, r) && d in r.dirs && va < USER_TOP && Walkable(s, d, va)
    ensures Idle(UnmapFrame(s, d, va)) == Idle(s)
  {
    InvWalkable(s, r, d, va);
    if Pde(s, d, va) != 0 {
      var k := Slot(FrameOf(Pde(s, d, va)), PTX(va));
      assert k / 1024 == FrameOf(Pde(s, d, va));
      if s.mem[k] != 0 {
        assert Names(s, r, k, FrameOf(s.mem[k]));
        NamedIsCounted(s, r, k, FrameOf(s.mem[k]));
        MappedIsNotFree(s, r, d, va);
        DecrementIdle(s, FrameOf(s.mem[k]));
        assert UnmapFrame(s, d, va).refs == DecrementReferences(s, FrameOf(s.mem[k])).refs;
        assert UnmapFrame(s, d, va).free == DecrementReferences(s, FrameOf(s.mem[k])).free;
      }
    }
  }

  // A frame whose count drops to 0 goes to the free list.
  lemma DecrementIdle(s: State, g: nat)
    requires g < |s.refs| && s.refs[g] > 0
    ensures Idle(DecrementReferences(s, g)) == Idle(s)
  {
    var s' := DecrementReferences(s, g);
    forall f: nat ensures f in Idle(s') <==> f in Idle(s) {
    }
  }

  lemma InstallIdle(s: State, t: nat, va: Word, f: nat, perm: nat)
    requires |s.mem| == |s.refs| * 1024 && t < |s.refs| && f < |s.refs| <= 0x1_0000 && perm < 4096
    requires s.refs[f] < 0xFFFF
    ensures Idle(InstallPage(s, t, va, f, perm)) == Idle(s) - {f}
  {
  }

  lemma MapInTableIdle(s: State, r: Roots, d: nat, f: nat, va: Word, perm: nat)
    requires Inv(s, r) && d in r.dirs && va < USER_TOP && Walkable(s, d, va) && Pde(s, d, va) != 0
    requires f < |s.refs| && f !in s.free && s.refs[f] < 0xFFFF && perm < 4096
    ensures Idle(MapInTable(s, d, FrameOf(Pde(s, d, va)), f, va, perm)) == Idle(s) - {f}
  {
    var t := FrameOf(Pde(s, d, va));
    InvWalkable(s, r, d, va);
    EntryPresent(s, r, t, va);
    MapInTableCases(s, d, t, Pte(s, t, va), f, va, perm);
    var k := Slot(t, PTX(va));
    assert k / 1024 == t;
    if s.mem[k] == 0 {
      InstallIdle(s, t, va, f, perm);
    } else if FrameOf(s.mem[k]) == f {
      assert Names(s, r, k, f);
      NamedIsCounted(s, r, k, f);
    } else {
      UnmapIdle(s, r, d, va);
      UnmapOther(s, d, t, s.mem[k], va, f);
      InstallIdle(UnmapFrame(s, d, va), t, va, f, perm);
    }
  }

  lemma GetPageTableIdle(s: State, r: Roots, d: nat, va: Word)
    requires Inv(s, r) && d in r.dirs && va < USER_TOP
    ensures Idle(GetPageTable(s, d, va, true).1) == Idle(s)
  {
    GetPageTableKeepsInv(s, r, d, va);
    if Pde(s, d, va) == 0 && s.free != [] { TakenIdle(s, s.free[0]); }
  }

  // The frame that a table takes is counted.
  lemma TakenIdle(s: State, t: nat)
    requires Shape(s) && FreeListOk(s) && s.free != [] && t == s.free[0] < |s.refs|
    ensures Idle(State(s.mem, s.refs[t := 1], s.free[1..])) == Idle(s)
    ensures Idle(AllocateFrame(s).1) == Idle(s) + {t} && t !in Idle(s)
  {
    RestOfList(s.free);
    assert AllocateFrame(s).1.refs == s.refs;
  }

  lemma RestOfList(q: seq<nat>)
    requires q != [] && forall i, j :: 0 <= i < j < |q| ==> q[i] != q[j]
    ensures forall x :: x in q[1..] <==> x in q && x != q[0]
  {
    forall x | x in q && x != q[0] ensures x in q[1..] {
      var i :| 0 <= i < |q| && q[i] == x;
      assert q[1..][i - 1] == x;
    }
  }

  lemma MapIdle(s: State, r: Roots, d: nat, f: nat, va: Word, perm: nat)
    requires Inv(s, r) && d in r.dirs && va < USER_TOP && Walkable(s, d, va)
    requires f < |s.refs| && f !in s.free && s.refs[f] < 0xFFFF && perm < 4096
    requires MapFrame(s, d, f, va, perm).0
    ensures Idle(MapFrame(s, d, f, va, perm).1) == Idle(s) - {f}
  {
    GetPageTableKeepsInv(s, r, d, va);
    GetPageTableIdle(s, r, d, va);
    var s1 := GetPageTable(s, d, va, true).1;
    InvWalkable(s1, r, d, va);
    assert f !in s1.free && s1.refs[f] == s.refs[f];
    MapInTableIdle(s1, r, d, f, va, perm);
  }

  // A call loses the frame it took unless there was none, or its arguments are
  // accepted and the page table does not take the last frame.
  lemma SysAllocateLosesIff(s: State, r: Roots, d: nat, va: Word, perm: Word)
    requires Inv(s, r) && d in r.dirs && SysWalkable(s, d, va)
    ensures var s' := SysAllocatePage(s, d, va, perm).1;
      && |s'.refs| == |s.refs|
      && (Lost(s', r) == Lost(s, r) <==> s.free == [] || (SysArguments(va, perm) && !Starves(s, d, va, perm)))
      && (Lost(s', r) != Lost(s, r) ==> Lost(s', r) == Lost(s, r) + {s.free[0]})
  {
    LostIsIdle(s, r);
    SysAllocateKeepsInvIff(s, r, d, va, perm);
    if s.free != [] {
      var f, s1 := s.free[0], TakeZeroed(s);
      TakeZeroedKeepsInv(s, r);
      TakenIdle(s, f);
      assert Idle(s1) == Idle(AllocateFrame(s).1);
      if !SysArguments(va, perm) {
        LostIsIdle(AllocateFrame(s).1, r);
      } else if Starves(s, d, va, perm) {
        LostIsIdle(s1, r);
        StarvedIsLost(s, r, d, va, perm);
      } else {
        FreeIsUnused(s, r, f);
        InvWalkable(s1, r, d, va);
        MapIdle(s1, r, d, f, va, perm);
        LostIsIdle(SysAllocatePage(s, d, va, perm).1, r);
      }
    }
  }

  // The count of the frame wraps to 65535, and nothing names it.
  lemma StarvedIsLost(s: State, r: Roots, d: nat, va: Word, perm: Word)
    requires Inv(s, r) && d in r.dirs && SysWalkable(s, d, va) && Starves(s, d, va, perm)
    ensures var s' := SysAllocatePage(s, d, va, perm).1;
      && |s'.refs| == |s.refs| && Lost(s', r) == Lost(TakeZeroed(s), r) && s'.refs[s.free[0]] == 0xFFFF
  {
    StarvedState(s, r, d, va, perm);
    SameMemory(TakeZeroed(s), r, DecrementReferences(TakeZeroed(s), s.free[0]));
  }

  // The result of the call, in the tests that it makes: the mask leaves the bits
  // outside PERM_AVAILABLE and PERM_WRITEABLE.
  lemma SysAllocateOutcome(s: State, r: Roots, d: nat, va: Word, perm: Word, pde: Word)
    requires Inv(s, r) && d in r.dirs && SysWalkable(s, d, va) && Pde(s, d, va) == pde
    ensures var res := SysAllocatePage(s, d, va, perm).0;
      var accepted := va < USER_TOP && va % 4096 == 0 && BitForms.And(perm, 0xFFFF_F1FD) == PERM_USER;
      && (res == SysOk <==> s.free != [] && accepted && !(|s.free| == 1 && pde == 0))
      && (res == SysInvalid <==> s.free != [] && !accepted)
      && (res == SysNoMemory <==> s.free == [] || (accepted && |s.free| == 1 && pde == 0))
  {
    BitForms.PermissionBits(perm);
    SysAllocateKeepsInvIff(s, r, d, va, perm);
  }
}
