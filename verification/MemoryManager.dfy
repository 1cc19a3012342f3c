/**
 The memory manager as the kernel runs it: physical memory, the frames_info
 array and the intrusive free list are updated in place
 (kern/memory_manager.c:311-503, 569-582, kern/syscall.c:91-131).

 Each method is proved to act on the abstract state exactly as the function of
 the same name in module Paging (or Runs), whose properties are proved there.
 */
module MemoryManager {
  import opened Words
  import opened Queue
  import opened ReferenceCounts
  import Paging
  import Runs

  type State = Paging.State

  // The only links that change belong to frames on the list before or after.
  ghost predicate LinksKept(next: seq<Link>, prev: seq<Cell>, q: seq<nat>,
                            next': seq<Link>, prev': seq<Cell>, q': seq<nat>)
  {
    && |next'| == |next| && |prev'| == |prev|
    && (forall x: nat :: x < |next| && x !in q && x !in q' ==> next'[x] == next[x])
    && (forall x: nat :: x < |prev| && x !in q && x !in q' ==> prev'[x] == prev[x])
  }

  // hi - 1, ..., lo
  function Countdown(lo: nat, hi: nat): (q: seq<nat>)
    requires lo <= hi
    ensures |q| == hi - lo
  {
    if lo == hi then [] else [hi - 1] + Countdown(lo, hi - 1)
  }

  lemma CountdownMembers(lo: nat, hi: nat)
    requires lo <= hi
    ensures forall x: nat :: x in Countdown(lo, hi) <==> lo <= x < hi
  {
  }

  // Counts lo..hi set to v.
  function Filled(c: seq<Count>, lo: nat, hi: nat, v: Count): (r: seq<Count>)
    requires lo <= hi <= |c|
    ensures |r| == |c| && forall f :: 0 <= f < |c| ==> r[f] == if lo <= f < hi then v else c[f]
  {
    c[..lo] + seq(hi - lo, _ => v) + c[hi..]
  }

  // Base memory but frame 0, and the memory from frame end on, is unreferenced.
  ghost predicate IsBootCounts(c: seq<Count>, end: nat) {
    forall f :: 0 <= f < |c| ==> c[f] == if 1 <= f < 160 || end <= f then 0 else 1
  }

  lemma FilledBootCounts(c: seq<Count>, end: nat)
    requires 256 <= end <= |c| && c[0] == 1
    ensures IsBootCounts(Filled(Filled(Filled(Filled(c, 1, 160, 0), 160, 256, 1), 256, end, 1), end, |c|, 0), end)
  {
  }

  lemma FilledStep(c: seq<Count>, lo: nat, i: nat, v: Count)
    requires lo <= i < |c|
    ensures Filled(c, lo, i + 1, v) == Filled(c, lo, i, v)[i := v]
  {
  }

  lemma CountdownStep(lo: nat, i: nat, q: seq<nat>)
    requires lo <= i && i !in q
    ensures i !in Countdown(lo, i) + q
    ensures [i] + (Countdown(lo, i) + q) == Countdown(lo, i + 1) + q
  {
    CountdownMembers(lo, i);
  }

  // Frames lo, ..., i - 1 have been given count 0 and put in front of the list q.
  ghost predicate Marked(c: seq<Count>, q: seq<nat>, lo: nat, i: nat, c': seq<Count>, q': seq<nat>) {
    lo <= i <= |c| && c' == Filled(c, lo, i, 0) && q' == Countdown(lo, i) + q
  }

  lemma MarkedNext(c: seq<Count>, q: seq<nat>, lo: nat, i: nat, c': seq<Count>, q': seq<nat>)
    requires Marked(c, q, lo, i, c', q') && i < |c| && i !in q
    ensures |c'| == |c| && i !in q' && Marked(c, q, lo, i + 1, c'[i := 0], [i] + q')
  {
    CountdownStep(lo, i, q);
    FilledStep(c, lo, i, 0);
  }

  class Manager {
    const mem: array<Word>  // physical memory
    const refs: array<Count>  // frames_info[f].references
    const freeList: List  // free_frame_list, with the links inside frames_info

    ghost predicate Valid()
      reads this, mem, refs, freeList, freeList.next, freeList.prev
    {
      && freeList.Valid()
      && freeList.next.Length == freeList.prev.Length == refs.Length
      && 0 < refs.Length <= 0x1_0000
      && mem.Length == refs.Length * 1024
    }

    ghost function Abs(): State
      reads this, mem, refs, freeList
    {
      Paging.State(mem[..], refs[..], freeList.contents)
    }

    // initialize_paging, once the boot structures end at physical address used.
    // The initial contents of frames_info do not matter.
    constructor (memory: array<Word>, n: nat, used: Word)
      requires n < 0x1_0000 && memory.Length == n * 1024
      requires PHYS_EXTENDED_MEM <= used <= n * PAGE_SIZE
      ensures Valid() && mem == memory && refs.Length == n
      ensures fresh(refs) && fresh(freeList) && fresh(freeList.next) && fresh(freeList.prev)
      ensures RoundUp(used, PAGE_SIZE) / PAGE_SIZE <= n
      ensures Abs().free == Countdown(RoundUp(used, PAGE_SIZE) / PAGE_SIZE, n) + Countdown(1, 160)
      ensures IsBootCounts(refs[..], RoundUp(used, PAGE_SIZE) / PAGE_SIZE)
    {
      var list := new List(n);
      var counts := new Count[n];
      mem := memory;
      refs := counts;
      freeList := list;
      new;
      refs[0] := 1;
      ghost var refs0 := refs[..];
      MarkFree(1, RoundUp(PHYS_IO_MEM, PAGE_SIZE) / PAGE_SIZE);
      MarkUsed(PHYS_IO_MEM / PAGE_SIZE, PHYS_EXTENDED_MEM / PAGE_SIZE);
      var end := RoundUp(used, PAGE_SIZE) / PAGE_SIZE;
      MarkUsed(PHYS_EXTENDED_MEM / PAGE_SIZE, end);
      CountdownMembers(1, 160);
      MarkFree(end, n);
      FilledBootCounts(refs0, end);
    }

    method MarkUsed(lo: nat, hi: nat)
      requires Valid() && lo <= hi <= refs.Length
      modifies refs
      ensures Valid() && freeList.contents == old(freeList.contents)
      ensures refs[..] == Filled(old(refs[..]), lo, hi, 1)
    {
      for i := lo to hi
        invariant refs[..] == Filled(old(refs[..]), lo, i, 1)
      {
        FilledStep(old(refs[..]), lo, i, 1);
        refs[i] := 1;
      }
    }

    method MarkFree(lo: nat, hi: nat)
      requires Valid() && lo <= hi <= refs.Length
      requires forall f :: lo <= f < hi ==> f !in freeList.contents
      modifies refs, freeList, freeList.next, freeList.prev
      ensures Valid() && freeList.contents == Countdown(lo, hi) + old(freeList.contents)
      ensures refs[..] == Filled(old(refs[..]), lo, hi, 0)
    {
      ghost var c, q := refs[..], freeList.contents;
      for i := lo to hi
        invariant Valid() && Marked(c, q, lo, i, refs[..], freeList.contents)
      {
        MarkedNext(c, q, lo, i, refs[..], freeList.contents);
        AddFree(i);
      }
    }

    method AddFree(f: nat)
      requires Valid() && f < refs.Length && f !in freeList.contents
      modifies refs, freeList, freeList.next, freeList.prev
      ensures Valid() && freeList.contents == [f] + old(freeList.contents)
      ensures refs[..] == old(refs[..])[f := 0]
    {
      refs[f] := 0;
      freeList.InsertHead(f);
    }

    // LIST_FIRST, LIST_REMOVE, initialize_frame_info
    method AllocateFrame() returns (r: Option<nat>)
      requires Valid()
      modifies refs, freeList, freeList.next, freeList.prev
      ensures Valid() && Paging.Shape(old(Abs()))
      ensures (r, Abs()) == Paging.AllocateFrame(old(Abs()))
      ensures LinksKept(old(freeList.next[..]), old(freeList.prev[..]), old(freeList.contents),
                        freeList.next[..], freeList.prev[..], freeList.contents)
    {
      if freeList.first == Null {
        return None;
      }
      var f := freeList.first.i;
      freeList.Remove(f, 0);
      InitializeFrameInfo(f);
      assert Removed(old(freeList.contents), 0) == old(freeList.contents)[1..];
      return Some(f);
    }

    method InitializeFrameInfo(f: nat)
      requires Valid() && f < refs.Length && f !in freeList.contents
      modifies refs, freeList.next, freeList.prev
      ensures Valid() && Abs() == old(Abs()).(refs := old(refs[..])[f := 0])
      ensures forall x: nat :: x < refs.Length && x != f ==>
        freeList.next[x] == old(freeList.next[x]) && freeList.prev[x] == old(freeList.prev[x])
    {
      freeList.next[f] := Null;
      freeList.prev[f] := NoCell;
      refs[f] := 0;
      ChainFrame(freeList.first, old(freeList.next[..]), old(freeList.prev[..]), freeList.contents,
                 freeList.next[..], freeList.prev[..]);
    }

    method FreeFrame(f: nat)
      requires Valid() && f < refs.Length && f !in freeList.contents
      modifies freeList, freeList.next, freeList.prev
      ensures Valid() && Abs() == Paging.FreeFrame(old(Abs()), f)
      ensures LinksKept(old(freeList.next[..]), old(freeList.prev[..]), old(freeList.contents),
                        freeList.next[..], freeList.prev[..], freeList.contents)
    {
      freeList.InsertHead(f);
    }

    method DecrementReferences(f: nat)
      requires Valid() && f < refs.Length && (refs[f] == 1 ==> f !in freeList.contents)
      modifies refs, freeList, freeList.next, freeList.prev
      ensures Valid() && Abs() == Paging.DecrementReferences(old(Abs()), f)
      ensures LinksKept(old(freeList.next[..]), old(freeList.prev[..]), old(freeList.contents),
                        freeList.next[..], freeList.prev[..], freeList.contents)
    {
      refs[f] := Paging.Decremented(refs[f]);
      if refs[f] == 0 {
        FreeFrame(f);
      }
    }

    method GetPageTable(d: nat, va: Word, create: bool) returns (t: Paging.Table)
      requires Valid() && d < refs.Length
      modifies mem, refs, freeList, freeList.next, freeList.prev
      ensures Valid() && Paging.Shape(old(Abs()))
      ensures (t, Abs()) == Paging.GetPageTable(old(Abs()), d, va, create)
      ensures LinksKept(old(freeList.next[..]), old(freeList.prev[..]), old(freeList.contents),
                        freeList.next[..], freeList.prev[..], freeList.contents)
    {
      var pde := mem[Paging.Slot(d, PDX(va))];
      if pde != 0 {
        return Paging.Table(FrameOf(pde));
      }
      if !create {
        return Paging.NoTable;
      }
      var r := AllocateFrame();
      if r == None {
        return Paging.NoMemory;
      }
      var f := r.value;
      Paging.ClearFrame(mem, f);
      refs[f] := 1;
      mem[Paging.Slot(d, PDX(va))] := ConstructEntry(f, PERM_PRESENT + PERM_USER + PERM_WRITEABLE);
      return Paging.Table(f);
    }

    // The frame mapped at va, and the table that holds its entry.
    method GetFrameInfo(d: nat, va: Word) returns (f: Option<nat>, t: Paging.Table)
      requires Valid() && Paging.Walkable(Abs(), d, va)
      ensures (f, t) == Paging.GetFrameInfo(Abs(), d, va)
    {
      var pde := mem[Paging.Slot(d, PDX(va))];
      if pde == 0 {
        return None, Paging.NoTable;
      }
      t := Paging.Table(FrameOf(pde));
      var pte := mem[Paging.Slot(t.frame, PTX(va))];
      f := if pte != 0 then Some(FrameOf(pte)) else None;
    }

    method UnmapFrame(d: nat, va: Word, ghost r: Roots)
      requires Valid() && Inv(Abs(), r) && d in r.dirs && va < USER_TOP
      modifies mem, refs, freeList, freeList.next, freeList.prev
      ensures Paging.Walkable(old(Abs()), d, va)
      ensures Valid() && Abs() == Paging.UnmapFrame(old(Abs()), d, va)
      ensures LinksKept(old(freeList.next[..]), old(freeList.prev[..]), old(freeList.contents),
                        freeList.next[..], freeList.prev[..], freeList.contents)
    {
      InvWalkable(Abs(), r, d, va);
      var f, t := GetFrameInfo(d, va);
      if f != None {
        MappedIsNotFree(Abs(), r, d, va);
        DecrementReferences(f.value);
        mem[Paging.Slot(t.frame, PTX(va))] := 0;
      }
    }

    method MapFrame(d: nat, f: nat, va: Word, perm: nat, ghost r: Roots) returns (ok: bool)
      requires Valid() && Inv(Abs(), r) && d in r.dirs && va < USER_TOP
      requires f < refs.Length && f !in freeList.contents && perm < 4096
      modifies mem, refs, freeList, freeList.next, freeList.prev
      ensures Paging.Walkable(old(Abs()), d, va)
      ensures Valid() && (ok, Abs()) == Paging.MapFrame(old(Abs()), d, f, va, perm)
      ensures LinksKept(old(freeList.next[..]), old(freeList.prev[..]), old(freeList.contents),
                        freeList.next[..], freeList.prev[..], freeList.contents)
    {
      InvWalkable(Abs(), r, d, va);
      GetPageTableKeepsInv(Abs(), r, d, va);
      var t := GetPageTable(d, va, true);
      if !t.Table? {
        return false;
      }
      MapInTable(d, t.frame, f, va, perm, r);
      return true;
    }

    // map_frame once the table is there.
    method MapInTable(d: nat, t: nat, f: nat, va: Word, perm: nat, ghost r: Roots)
      requires Valid() && Inv(Abs(), r) && d in r.dirs && va < USER_TOP && Paging.Walkable(Abs(), d, va)
      requires Paging.Pde(Abs(), d, va) != 0 && FrameOf(Paging.Pde(Abs(), d, va)) == t
      requires f < refs.Length && f !in freeList.contents && perm < 4096
      modifies mem, refs, freeList, freeList.next, freeList.prev
      ensures Valid() && Abs() == Paging.MapInTable(old(Abs()), d, t, f, va, perm)
      ensures LinksKept(old(freeList.next[..]), old(freeList.prev[..]), old(freeList.contents),
                        freeList.next[..], freeList.prev[..], freeList.contents)
    {
      InvWalkable(Abs(), r, d, va);
      var pte := mem[Paging.Slot(t, PTX(va))];
      if Present(pte) {
        if FrameOf(pte) == f {
          return;
        }
        UnmapFrame(d, va, r);
      }
      refs[f] := Paging.Incremented(refs[f]);
      mem[Paging.Slot(t, PTX(va))] := ConstructEntry(f, WithPresent(perm));
    }

    method CalculateFreeFrames() returns (cnt: nat)
      requires Valid()
      ensures cnt == |Abs().free|
    {
      cnt := freeList.Length();
    }

    method SysAllocatePage(d: nat, va: Word, perm: Word, ghost r: Roots) returns (res: Runs.SysResult)
      requires Valid() && Inv(Abs(), r) && d in r.dirs
      modifies mem, refs, freeList, freeList.next, freeList.prev
      ensures Runs.SysWalkable(old(Abs()), d, va)
      ensures Valid() && (res, Abs()) == Runs.SysAllocatePage(old(Abs()), d, va, perm)
    {
      Runs.InvSysWalkable(Abs(), r, d, va);
      if freeList.contents != [] { Runs.TakeZeroedKeepsInv(Abs(), r); }
      var a := AllocateFrame();
      if a == None {
        return Runs.SysNoMemory;
      }
      if va >= USER_TOP || va % PAGE_SIZE != 0 {
        return Runs.SysInvalid;
      }
      if !Runs.PermAllowed(perm) {
        return Runs.SysInvalid;
      }
      var f := a.value;
      Paging.ClearFrame(mem, f);
      var ok := MapFrame(d, f, va, perm, r);
      if !ok {
        DecrementReferences(f);
        return Runs.SysNoMemory;
      }
      return Runs.SysOk;
    }
  }
}
