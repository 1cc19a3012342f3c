/**
 The frame allocator and the two-level page tables as functions on a state
 (kern/memory_manager.c, kern/helpers.c).

 Physical memory is one sequence of words.  A page directory or a page table is
 the 1024 words of some frame, so an entry is just a word of memory and two
 structures that share a frame really share it.
 */
module Paging {
  import opened Words

  // mem: physical memory; refs: frames_info[f].references; free: free_frame_list.
  datatype State = State(mem: seq<Word>, refs: seq<Count>, free: seq<nat>)

  datatype Table = Table(frame: nat) | NoTable | NoMemory

  ghost predicate Shape(s: State) {
    && 0 < |s.refs| <= 0x1_0000
    && |s.mem| == |s.refs| * 1024
    && forall i :: 0 <= i < |s.free| ==> s.free[i] < |s.refs|
  }

  // The word of memory holding entry i of the table (or directory) in frame f.
  function Slot(f: nat, i: nat): nat { f * 1024 + i }

  function Pde(s: State, d: nat, va: Word): Word
    requires |s.mem| == |s.refs| * 1024 && d < |s.refs|
  {
    s.mem[Slot(d, PDX(va))]
  }

  function Pte(s: State, t: nat, va: Word): Word
    requires |s.mem| == |s.refs| * 1024 && t < |s.refs|
  {
    s.mem[Slot(t, PTX(va))]
  }

  // Walking va in directory d meets no address outside physical memory, for
  // which K_VIRTUAL_ADDRESS and to_frame_info would panic.
  ghost predicate Walkable(s: State, d: nat, va: Word) {
    && Shape(s)
    && d < |s.refs|
    && FrameOf(Pde(s, d, va)) < |s.refs|
    && (Pde(s, d, va) != 0 ==> FrameOf(Pte(s, FrameOf(Pde(s, d, va)), va)) < |s.refs|)
  }

  function ZeroFrame(mem: seq<Word>, f: nat): (r: seq<Word>)
    ensures |r| == |mem|
  {
    seq(|mem|, k requires 0 <= k < |mem| => if k / 1024 == f then 0 else mem[k])
  }

  // ----- the allocator

  function AllocateFrame(s: State): (Option<nat>, State)
    requires forall i :: 0 <= i < |s.free| ==> s.free[i] < |s.refs|
  {
    if s.free == [] then (None, s)
    else (Some(s.free[0]), s.(free := s.free[1..], refs := s.refs[s.free[0] := 0]))
  }

  function FreeFrame(s: State, f: nat): State {
    s.(free := [f] + s.free)
  }

  // references is a uint16: ++ and -- wrap.
  function Incremented(c: Count): Count { if c == 0xFFFF then 0 else c + 1 }

  function Decremented(c: Count): Count { if c == 0 then 0xFFFF else c - 1 }

  function DecrementReferences(s: State, f: nat): State
    requires f < |s.refs|
  {
    var s' := s.(refs := s.refs[f := Decremented(s.refs[f])]);
    if s'.refs[f] == 0 then FreeFrame(s', f) else s'
  }

  // ----- page tables

  function InstallTable(s: State, d: nat, va: Word, t: nat): State
    requires |s.mem| == |s.refs| * 1024 && d < |s.refs| && t < |s.refs| <= 0x1_0000
  {
    s.(mem := ZeroFrame(s.mem, t)[Slot(d, PDX(va)) := ConstructEntry(t, PERM_PRESENT + PERM_USER + PERM_WRITEABLE)],
       refs := s.refs[t := 1])
  }

  ghost function GetPageTable(s: State, d: nat, va: Word, create: bool): (Table, State)
    requires Shape(s) && d < |s.refs|
  {
    if Pde(s, d, va) != 0 then (Table(FrameOf(Pde(s, d, va))), s)
    else if !create then (NoTable, s)
    else
      match AllocateFrame(s)
      case (None, _) => (NoMemory, s)
      case (Some(t), s') => (Table(t), InstallTable(s', d, va, t))
  }

  // The frame mapped at va, with the table holding its entry.
  ghost function GetFrameInfo(s: State, d: nat, va: Word): (Option<nat>, Table)
    requires Walkable(s, d, va)
  {
    if Pde(s, d, va) == 0 then (None, NoTable)
    else
      var t := FrameOf(Pde(s, d, va));
      (if Pte(s, t, va) != 0 then Some(FrameOf(Pte(s, t, va))) else None, Table(t))
  }

  // Without create a lookup changes nothing, and finds a table exactly if the
  // directory entry is not 0.
  lemma LookupChangesNothing(s: State, d: nat, va: Word)
    requires Shape(s) && d < |s.refs|
    ensures var (t, s') := GetPageTable(s, d, va, false);
      && s' == s && (t.Table? <==> Pde(s, d, va) != 0)
      && (t.Table? ==> t.frame == FrameOf(Pde(s, d, va))) && (!t.Table? ==> t == NoTable)
  {
  }

  // With create a table that is there is found without a change, one that is not
  // there is made if a frame is free, and else the answer is E_NO_MEM and no change.
  lemma CreateFindsTable(s: State, d: nat, va: Word)
    requires Shape(s) && d < |s.refs|
    ensures var (t, s') := GetPageTable(s, d, va, true);
      && (Pde(s, d, va) != 0 ==> t == Table(FrameOf(Pde(s, d, va))) && s' == s)
      && (Pde(s, d, va) == 0 && s.free != [] ==> t == Table(s.free[0]) && s'.free == s.free[1..])
      && (Pde(s, d, va) == 0 && s.free == [] ==> t == NoMemory && s' == s)
  {
  }

  // get_frame_info is that lookup, and the entry in the table found.
  lemma FrameInfoIsLookup(s: State, d: nat, va: Word)
    requires Walkable(s, d, va)
    ensures var (t, s') := GetPageTable(s, d, va, false);
      match t
      case Table(f) => s' == s && f < |s.refs| && GetFrameInfo(s, d, va) ==
        (if s'.mem[Slot(f, PTX(va))] == 0 then (None, t) else (Some(FrameOf(s'.mem[Slot(f, PTX(va))])), t))
      case _ => GetFrameInfo(s, d, va) == (None, t)
  {
  }

  ghost function UnmapFrame(s: State, d: nat, va: Word): State
    requires Walkable(s, d, va)
  {
    match GetFrameInfo(s, d, va)
    case (Some(f), Table(t)) =>
      var s' := DecrementReferences(s, f);
      s'.(mem := s.mem[Slot(t, PTX(va)) := 0])
    case _ => s
  }

  // references++ and the new entry.
  function InstallPage(s: State, t: nat, va: Word, f: nat, perm: nat): State
    requires |s.mem| == |s.refs| * 1024 && t < |s.refs| && f < |s.refs| <= 0x1_0000 && perm < 4096
  {
    s.(mem := s.mem[Slot(t, PTX(va)) := ConstructEntry(f, WithPresent(perm))],
       refs := s.refs[f := Incremented(s.refs[f])])
  }

  // map_frame once the table t of va is there.  The frame already mapped at va
  // stays mapped as it is; any other is unmapped first.
  ghost function MapInTable(s: State, d: nat, t: nat, f: nat, va: Word, perm: nat): State
    requires Walkable(s, d, va) && t < |s.refs| && f < |s.refs| && perm < 4096
  {
    var pte := Pte(s, t, va);
    if Present(pte) && FrameOf(pte) == f then s
    else InstallPage(if Present(pte) then UnmapFrame(s, d, va) else s, t, va, f, perm)
  }

  ghost function MapFrame(s: State, d: nat, f: nat, va: Word, perm: nat): (bool, State)
    requires Walkable(s, d, va) && f < |s.refs| && perm < 4096
  {
    match GetPageTable(s, d, va, true)
    case (Table(t), s') => (true, MapInTable(s', d, t, f, va, perm))
    case _ => (false, s)
  }

  // ~0 when the page is not mapped.
  const NOT_MAPPED: Word := 0xFFFF_FFFF

  // Walking to page j of table i of directory d does not leave physical memory.
  predicate PageWalks(mem: seq<Word>, d: nat, i: nat, j: nat) {
    && Slot(d, i) < |mem|
    && (Present(mem[Slot(d, i)]) ==> Slot(FrameOf(mem[Slot(d, i)]), j) < |mem|)
  }

  // The address of the frame that this page is mapped to.
  function Translate(mem: seq<Word>, d: nat, i: nat, j: nat): Word
    requires PageWalks(mem, d, i, j)
  {
    var pde := mem[Slot(d, i)];
    if !Present(pde) then NOT_MAPPED
    else
      var pte := mem[Slot(FrameOf(pde), j)];
      if !Present(pte) then NOT_MAPPED else ExtractAddress(pte)
  }

  predicate CanWalk(mem: seq<Word>, d: nat, va: Word) {
    && Slot(d, PDX(va)) < |mem|
    && (Present(mem[Slot(d, PDX(va))]) ==> Slot(FrameOf(mem[Slot(d, PDX(va))]), PTX(va)) < |mem|)
  }

  // check_va2pa
  function CheckVa2pa(mem: seq<Word>, d: nat, va: Word): Word
    requires CanWalk(mem, d, va)
  {
    Translate(mem, d, PDX(va), PTX(va))
  }

  // What the processor grants in page j of table i of directory d: the entries of
  // both levels must be present and hold the bit, for a user program PERM_USER too.
  predicate KernelMay(mem: seq<Word>, d: nat, i: nat, j: nat, bit: nat)
    requires bit > 0 && PageWalks(mem, d, i, j)
  {
    var pde := mem[Slot(d, i)];
    Present(pde) && HasBit(pde, bit) &&
    var pte := mem[Slot(FrameOf(pde), j)];
    Present(pte) && HasBit(pte, bit)
  }

  predicate UserMay(mem: seq<Word>, d: nat, i: nat, j: nat, bit: nat)
    requires bit > 0 && PageWalks(mem, d, i, j)
  {
    var pde := mem[Slot(d, i)];
    Present(pde) && Granted(pde, bit) &&
    var pte := mem[Slot(FrameOf(pde), j)];
    Present(pte) && Granted(pte, bit)
  }

  predicate HasBit(e: Word, bit: nat)
    requires bit > 0
  {
    Permissions(e) / bit % 2 == 1
  }

  // The bit and PERM_USER.
  predicate Granted(e: Word, bit: nat)
    requires bit > 0
  {
    HasBit(e, PERM_USER) && HasBit(e, bit)
  }

  // check_va2pa as it walks memory
  method Va2pa(mem: array<Word>, d: nat, va: Word) returns (pa: Word)
    requires CanWalk(mem[..], d, va)
    ensures pa == CheckVa2pa(mem[..], d, va)
  {
    var p := Slot(d, PDX(va));
    if !Present(mem[p]) {
      return NOT_MAPPED;
    }
    p := Slot(FrameOf(mem[p]), PTX(va));
    if !Present(mem[p]) {
      return NOT_MAPPED;
    }
    return ExtractAddress(mem[p]);
  }

  // memset of a whole frame
  method ClearFrame(mem: array<Word>, f: nat)
    requires f * 1024 + 1024 <= mem.Length
    modifies mem
    ensures mem[..] == ZeroFrame(old(mem[..]), f)
  {
    for i := 0 to 1024
      invariant forall k :: 0 <= k < mem.Length ==>
        mem[k] == if f * 1024 <= k < f * 1024 + i then 0 else old(mem[k])
    {
      mem[f * 1024 + i] := 0;
    }
  }
}
