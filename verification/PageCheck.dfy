/**
 page_check (kern/helpers.c:151-252): the kernel's own test of the memory
 manager.  It steals the free list, walks one directory through a script of
 mappings with three frames, and puts everything back.
 */
module Scenes {
  import opened Words
  import opened Paging
  import opened ReferenceCounts

  // How far the script has come.  p0 is the page table while there is one, e0 and
  // e1 are its first two entries, c0, c1, c2 the counts of the three frames.
  datatype Scene = Scene(table: bool, e0: Word, e1: Word, c0: Count, c1: Count, c2: Count, free: seq<nat>)

  datatype Cast = Cast(d: Frame, p0: Frame, p1: Frame, p2: Frame)

  // The three frames are apart from each other and from the directory, unused, and
  // directory entries 0 and 1 are empty.
  ghost predicate CastOk(s: State, c: Cast) {
    && Shape(s)
    && c.d < |s.refs| && c.p0 < |s.refs| && c.p1 < |s.refs| && c.p2 < |s.refs|
    && c.p0 != c.p1 && c.p0 != c.p2 && c.p1 != c.p2 && c.d != c.p0
    && s.mem[Slot(c.d, 0)] == 0 && s.mem[Slot(c.d, 1)] == 0
  }

  function PageEntry(f: Frame): Word { ConstructEntry(f, PERM_PRESENT) }

  function TableEntry(f: Frame): Word { ConstructEntry(f, PERM_PRESENT + PERM_USER + PERM_WRITEABLE) }

  // The state in which scene x plays, given the state s before the script.
  ghost function At(s: State, c: Cast, x: Scene): State
    requires CastOk(s, c)
  {
    State(if x.table then ZeroFrame(s.mem, c.p0)[Slot(c.d, 0) := TableEntry(c.p0)][Slot(c.p0, 0) := x.e0][Slot(c.p0, 1) := x.e1]
          else s.mem,
          s.refs[c.p0 := x.c0][c.p1 := x.c1][c.p2 := x.c2],
          x.free)
  }

  lemma AtShape(s: State, c: Cast, x: Scene)
    requires CastOk(s, c) && forall i :: 0 <= i < |x.free| ==> x.free[i] < |s.refs|
    ensures Shape(At(s, c, x))
    ensures At(s, c, x).mem[Slot(c.d, 0)] == if x.table then TableEntry(c.p0) else 0
    ensures At(s, c, x).mem[Slot(c.d, 1)] == 0
    ensures x.table ==> At(s, c, x).mem[Slot(c.p0, 0)] == x.e0 && At(s, c, x).mem[Slot(c.p0, 1)] == x.e1
    ensures At(s, c, x).refs[c.p0] == x.c0 && At(s, c, x).refs[c.p1] == x.c1 && At(s, c, x).refs[c.p2] == x.c2
  {
    assert Slot(c.d, 0) / 1024 == c.d && Slot(c.d, 1) / 1024 == c.d;
  }

  // Address of page j.
  function Va(j: nat): Word
    requires j < 2
  {
    j * PAGE_SIZE
  }

  function E(x: Scene, j: nat): Word { if j == 0 then x.e0 else x.e1 }

  function WithE(x: Scene, j: nat, e: Word): Scene { if j == 0 then x.(e0 := e) else x.(e1 := e) }

  // The count of frame f in scene x moves by one.
  function Plus(x: Scene, c: Cast, f: nat): Scene {
    if f == c.p1 then x.(c1 := Incremented(x.c1)) else x.(c2 := Incremented(x.c2))
  }

  function Minus(x: Scene, c: Cast, f: nat): Scene {
    var y := if f == c.p1 then x.(c1 := Decremented(x.c1)) else x.(c2 := Decremented(x.c2));
    if (if f == c.p1 then y.c1 else y.c2) == 0 then y.(free := [f] + y.free) else y
  }

  predicate IsPlayer(c: Cast, p: nat) { p == c.p0 || p == c.p1 || p == c.p2 }

  predicate SceneOk(c: Cast, x: Scene) {
    && (forall i :: 0 <= i < |x.free| ==> IsPlayer(c, x.free[i]))
    && (x.e0 == 0 || x.e0 == PageEntry(c.p1) || x.e0 == PageEntry(c.p2))
    && (x.e1 == 0 || x.e1 == PageEntry(c.p1) || x.e1 == PageEntry(c.p2))
  }

  // Writing entry j of the table.
  lemma EntryScene(s: State, c: Cast, x: Scene, j: nat, e: Word)
    requires CastOk(s, c) && x.table && j < 2
    ensures At(s, c, x).mem[Slot(c.p0, j) := e] == At(s, c, WithE(x, j, e)).mem
  {
  }

  lemma IncrementScene(s: State, c: Cast, x: Scene, f: Frame)
    requires CastOk(s, c) && (f == c.p1 || f == c.p2)
    ensures At(s, c, x).refs[f := Incremented(At(s, c, x).refs[f])] == At(s, c, Plus(x, c, f)).refs
  {
  }

  lemma InstallScene(s: State, c: Cast, x: Scene, j: nat, f: Frame, va: Word)
    requires CastOk(s, c) && SceneOk(c, x) && x.table && j < 2 && (f == c.p1 || f == c.p2) && PTX(va) == j
    ensures Shape(At(s, c, x))
    ensures InstallPage(At(s, c, x), c.p0, va, f, 0) == At(s, c, Plus(WithE(x, j, PageEntry(f)), c, f))
  {
    AtShape(s, c, x);
    EntryScene(s, c, x, j, PageEntry(f));
    IncrementScene(s, c, WithE(x, j, PageEntry(f)), f);
  }

  lemma DecrementScene(s: State, c: Cast, x: Scene, f: nat)
    requires CastOk(s, c) && (f == c.p1 || f == c.p2)
    ensures DecrementReferences(At(s, c, x), f) == At(s, c, Minus(x, c, f))
  {
    var a, b := DecrementReferences(At(s, c, x), f), At(s, c, Minus(x, c, f));
    assert a.refs == b.refs;
  }

  lemma WalkScene(s: State, c: Cast, x: Scene, j: nat)
    requires CastOk(s, c) && SceneOk(c, x) && j < 2
    ensures Walkable(At(s, c, x), c.d, Va(j)) && PDX(Va(j)) == 0 && PTX(Va(j)) == j
    ensures Pde(At(s, c, x), c.d, Va(j)) == if x.table then TableEntry(c.p0) else 0
    ensures x.table ==> Pte(At(s, c, x), c.p0, Va(j)) == E(x, j)
  {
    AtShape(s, c, x);
  }

  lemma UnmapScene(s: State, c: Cast, x: Scene, j: nat, f: nat, a: State)
    requires CastOk(s, c) && SceneOk(c, x) && x.table && j < 2 && E(x, j) != 0 && FrameOf(E(x, j)) == f && a == At(s, c, x)
    ensures Walkable(a, c.d, Va(j))
    ensures UnmapFrame(a, c.d, Va(j)) == At(s, c, Minus(WithE(x, j, 0), c, f))
  {
    WalkScene(s, c, x, j);
    UnmapEntry(s, c, x, j, f, a, Va(j));
  }

  lemma UnmapEntry(s: State, c: Cast, x: Scene, j: nat, f: nat, a: State, va: Word)
    requires CastOk(s, c) && SceneOk(c, x) && x.table && j < 2 && E(x, j) != 0 && FrameOf(E(x, j)) == f && a == At(s, c, x)
    requires EntryIs(a, c.d, va, c.p0, E(x, j)) && PTX(va) == j
    ensures UnmapFrame(a, c.d, va) == At(s, c, Minus(WithE(x, j, 0), c, f))
  {
    DecrementScene(s, c, x, f);
    EntryScene(s, c, Minus(x, c, f), j, 0);
    UnmapIs(a, c.d, va, c.p0, E(x, j));
    assert WithE(Minus(x, c, f), j, 0) == Minus(WithE(x, j, 0), c, f);
  }

  lemma UnmapIs(s: State, d: nat, va: Word, t: nat, e: Word)
    requires EntryIs(s, d, va, t, e) && e != 0
    ensures UnmapFrame(s, d, va) == DecrementReferences(s, FrameOf(e)).(mem := s.mem[Slot(t, PTX(va)) := 0])
  {
  }

  // A new page table takes frame p0, the only free one.
  lemma TableScene(s: State, c: Cast, x: Scene, j: nat)
    requires CastOk(s, c) && SceneOk(c, x) && !x.table && x.free == [c.p0] && j < 2
    ensures Shape(At(s, c, x))
    ensures GetPageTable(At(s, c, x), c.d, Va(j), true) ==
      (Table(c.p0), At(s, c, x.(table := true, e0 := 0, e1 := 0, c0 := 1, free := [])))
  {
    WalkScene(s, c, x, j);
    TableInstallScene(s, c, x);
    assert [c.p0][1..] == [];
    assert AllocateFrame(At(s, c, x)) == (Some(c.p0), At(s, c, x).(free := [], refs := At(s, c, x).refs[c.p0 := 0]));
  }

  lemma TableInstallScene(s: State, c: Cast, x: Scene)
    requires CastOk(s, c) && !x.table
    ensures var a := At(s, c, x);
      InstallTable(a.(free := [], refs := a.refs[c.p0 := 0]), c.d, Va(0), c.p0) ==
      At(s, c, x.(table := true, e0 := 0, e1 := 0, c0 := 1, free := []))
  {
    var a := InstallTable(At(s, c, x).(free := [], refs := At(s, c, x).refs[c.p0 := 0]), c.d, Va(0), c.p0);
    var b := At(s, c, x.(table := true, e0 := 0, e1 := 0, c0 := 1, free := []));
    var z := ZeroFrame(s.mem, c.p0);
    assert z[Slot(c.p0, 0)] == 0 && z[Slot(c.p0, 1)] == 0;
    assert a.mem == b.mem;
    assert a.refs == b.refs;
  }

  // What map_frame makes of a scene once the table is there.
  function Mapped(c: Cast, x: Scene, j: nat, f: Frame): Scene {
    if E(x, j) == PageEntry(f) then x
    else
      var y := if E(x, j) != 0 then Minus(WithE(x, j, 0), c, FrameOf(E(x, j))) else x;
      Plus(WithE(y, j, PageEntry(f)), c, f)
  }

  lemma MinusOk(c: Cast, x: Scene, j: nat)
    requires SceneOk(c, x) && j < 2 && E(x, j) != 0
    ensures SceneOk(c, Minus(WithE(x, j, 0), c, FrameOf(E(x, j))))
    ensures Minus(WithE(x, j, 0), c, FrameOf(E(x, j))).table == x.table
    ensures E(Minus(WithE(x, j, 0), c, FrameOf(E(x, j))), j) == 0
  {
  }

  lemma SceneEntry(c: Cast, x: Scene, j: nat, f: Frame)
    requires SceneOk(c, x) && j < 2
    ensures E(x, j) == 0 || Present(E(x, j))
    ensures Present(E(x, j)) ==> (FrameOf(E(x, j)) == f <==> E(x, j) == PageEntry(f))
  {
  }

  lemma MapInTableScene(s: State, c: Cast, x: Scene, j: nat, f: Frame, a: State, va: Word)
    requires CastOk(s, c) && SceneOk(c, x) && x.table && j < 2 && (f == c.p1 || f == c.p2) && a == At(s, c, x)
    requires EntryIs(a, c.d, va, c.p0, E(x, j)) && PTX(va) == j
    ensures MapInTable(a, c.d, c.p0, f, va, 0) == At(s, c, Mapped(c, x, j, f))
  {
    SceneEntry(c, x, j, f);
    MapInTableCases(a, c.d, c.p0, E(x, j), f, va, 0);
    if E(x, j) == 0 {
      InstallScene(s, c, x, j, f, va);
    } else if E(x, j) != PageEntry(f) {
      UnmapEntry(s, c, x, j, FrameOf(E(x, j)), a, va);
      MinusOk(c, x, j);
      InstallScene(s, c, Minus(WithE(x, j, 0), c, FrameOf(E(x, j))), j, f, va);
    }
  }

  lemma MapScene(s: State, c: Cast, x: Scene, j: nat, f: Frame)
    requires CastOk(s, c) && SceneOk(c, x) && j < 2 && (f == c.p1 || f == c.p2)
    requires x.table || x.free == [] || x.free == [c.p0]
    ensures Walkable(At(s, c, x), c.d, Va(j))
    ensures MapFrame(At(s, c, x), c.d, f, Va(j), 0) ==
      if x.table then (true, At(s, c, Mapped(c, x, j, f)))
      else if x.free == [] then (false, At(s, c, x))
      else (true, At(s, c, Mapped(c, x.(table := true, e0 := 0, e1 := 0, c0 := 1, free := []), j, f)))
  {
    WalkScene(s, c, x, j);
    if x.table {
      MapInTableScene(s, c, x, j, f, At(s, c, x), Va(j));
    } else if x.free != [] {
      TableScene(s, c, x, j);
      var y := x.(table := true, e0 := 0, e1 := 0, c0 := 1, free := []);
      WalkScene(s, c, y, j);
      MapInTableScene(s, c, y, j, f, At(s, c, y), Va(j));
    }
  }

  lemma Va2paScene(s: State, c: Cast, x: Scene, j: nat)
    requires CastOk(s, c) && SceneOk(c, x) && j < 2
    ensures CanWalk(At(s, c, x).mem, c.d, Va(j))
    ensures CheckVa2pa(At(s, c, x).mem, c.d, Va(j)) ==
      if x.table && E(x, j) != 0 then FrameOf(E(x, j)) * PAGE_SIZE else NOT_MAPPED
  {
    WalkScene(s, c, x, j);
  }

  ghost function AfterMap(c: Cast, x: Scene, j: nat, f: Frame): Scene {
    if x.table then Mapped(c, x, j, f)
    else if x.free == [] then x
    else Mapped(c, x.(table := true, e0 := 0, e1 := 0, c0 := 1, free := []), j, f)
  }

  lemma MapSceneOk(c: Cast, x: Scene, j: nat, f: Frame)
    requires SceneOk(c, x) && (f == c.p1 || f == c.p2)
    ensures SceneOk(c, AfterMap(c, x, j, f))
  {
  }

  // After the script, only the frame that was the page table differs: it is zero.
  lemma CurtainScene(s: State, c: Cast, x: Scene)
    requires CastOk(s, c) && x.table && x.e0 == 0 && x.e1 == 0
    requires s.refs[c.p0] == 0 && s.refs[c.p1] == 0 && s.refs[c.p2] == 0
    ensures At(s, c, x).mem[Slot(c.d, 0) := 0] == ZeroFrame(s.mem, c.p0)
    ensures s.refs[c.p0 := 0][c.p1 := 0][c.p2 := 0] == s.refs
  {
    var z := ZeroFrame(s.mem, c.p0);
    assert z[Slot(c.p0, 0)] == 0 && z[Slot(c.p0, 1)] == 0 && z[Slot(c.d, 0)] == 0;
    assert At(s, c, x).mem[Slot(c.d, 0) := 0] == z;
  }

  // Any part of the free list, in any order, is as good.
  lemma FewerFreeKeepsInv(s: State, r: Roots, q: seq<nat>)
    requires Inv(s, r)
    requires forall i, j :: 0 <= i < j < |q| ==> q[i] != q[j]
    requires forall i :: 0 <= i < |q| ==> q[i] in s.free
    ensures Inv(s.(free := q), r)
  {
    SameMemory(s, r, s.(free := q));
  }
}

/** page_check as a method on the memory manager, its assertions proved. */
module PageCheck {
  import opened Words
  import opened Queue
  import opened ReferenceCounts
  import opened MemoryManager
  import opened Scenes
  import Paging
  import Runs

  // The manager m plays scene x; the stolen free list, whose head is fl, is intact.
  ghost predicate Playing(m: Manager, s: State, c: Cast, x: Scene, r: Roots, fl: Link, stolen: seq<nat>)
    reads m, m.mem, m.refs, m.freeList, m.freeList.next, m.freeList.prev
  {
    && m.Valid() && CastOk(s, c) && SceneOk(c, x)
    && m.Abs() == At(s, c, x) && Inv(m.Abs(), r)
    && c.d in r.dirs
    && Chain(fl, m.freeList.next[..], m.freeList.prev[..], stolen)
    && c.p0 !in stolen && c.p1 !in stolen && c.p2 !in stolen
  }

  lemma StolenKept(fl: Link, stolen: seq<nat>, next: seq<Link>, prev: seq<Cell>, q: seq<nat>,
                   next': seq<Link>, prev': seq<Cell>, q': seq<nat>)
    requires Chain(fl, next, prev, stolen) && |next'| == |prev'|
    requires LinksKept(next, prev, q, next', prev', q')
    requires forall i :: 0 <= i < |q| ==> q[i] !in stolen
    requires forall i :: 0 <= i < |q'| ==> q'[i] !in stolen
    ensures Chain(fl, next', prev', stolen)
  {
    forall x: nat | x < |next| && x in stolen ensures next'[x] == next[x] && prev'[x] == prev[x] {
      assert x !in q && x !in q';
    }
    ChainFrame(fl, next, prev, stolen, next', prev');
  }

  lemma PlayersNotStolen(c: Cast, x: Scene, stolen: seq<nat>)
    requires SceneOk(c, x) && c.p0 !in stolen && c.p1 !in stolen && c.p2 !in stolen
    ensures forall i :: 0 <= i < |x.free| ==> x.free[i] !in stolen
  {
    forall i | 0 <= i < |x.free| ensures x.free[i] !in stolen { assert IsPlayer(c, x.free[i]); }
  }

  lemma MapAtScene(s: State, c: Cast, x: Scene, r: Roots, j: nat, f: Frame)
    requires CastOk(s, c) && SceneOk(c, x) && Inv(At(s, c, x), r) && c.d in r.dirs && j < 2
    requires (f == c.p1 || f == c.p2) && f !in x.free && At(s, c, x).refs[f] < 0xFFFF
    requires x.table || x.free == [] || x.free == [c.p0]
    ensures Paging.Walkable(At(s, c, x), c.d, Va(j)) && Va(j) < USER_TOP
    ensures Paging.MapFrame(At(s, c, x), c.d, f, Va(j), 0) == (x.table || x.free != [], At(s, c, AfterMap(c, x, j, f)))
    ensures Inv(At(s, c, AfterMap(c, x, j, f)), r)
  {
    MapScene(s, c, x, j, f);
    MapKeepsInv(At(s, c, x), r, c.d, f, Va(j), 0);
  }

  method MapStep(m: Manager, c: Cast, j: nat, f: Frame, ghost s: State, ghost x: Scene,
                 ghost r: Roots, ghost fl: Link, ghost stolen: seq<nat>)
    returns (ok: bool)
    requires Playing(m, s, c, x, r, fl, stolen) && j < 2 && (f == c.p1 || f == c.p2) && f !in x.free
    requires m.refs[f] < 0xFFFF
    requires x.table || x.free == [] || x.free == [c.p0]
    modifies m.mem, m.refs, m.freeList, m.freeList.next, m.freeList.prev
    ensures ok == (x.table || x.free != [])
    ensures Playing(m, s, c, AfterMap(c, x, j, f), r, fl, stolen)
  {
    ghost var next, prev, y := m.freeList.next[..], m.freeList.prev[..], AfterMap(c, x, j, f);
    MapSceneOk(c, x, j, f);
    PlayersNotStolen(c, x, stolen);
    PlayersNotStolen(c, y, stolen);
    MapAtScene(s, c, x, r, j, f);
    ok := m.MapFrame(c.d, f, Va(j), 0, r);
    StolenKept(fl, stolen, next, prev, x.free, m.freeList.next[..], m.freeList.prev[..], y.free);
  }

  method UnmapStep(m: Manager, c: Cast, j: nat, ghost s: State, ghost x: Scene,
                   ghost r: Roots, ghost fl: Link, ghost stolen: seq<nat>)
    requires Playing(m, s, c, x, r, fl, stolen) && j < 2 && x.table && E(x, j) != 0
    modifies m.mem, m.refs, m.freeList, m.freeList.next, m.freeList.prev
    ensures Playing(m, s, c, Minus(WithE(x, j, 0), c, FrameOf(E(x, j))), r, fl, stolen)
  {
    ghost var next, prev := m.freeList.next[..], m.freeList.prev[..];
    PlayersNotStolen(c, x, stolen);
    MinusOk(c, x, j);
    PlayersNotStolen(c, Minus(WithE(x, j, 0), c, FrameOf(E(x, j))), stolen);
    UnmapScene(s, c, x, j, FrameOf(E(x, j)), At(s, c, x));
    UnmapKeepsInv(m.Abs(), r, c.d, Va(j));
    m.UnmapFrame(c.d, Va(j), r);
    StolenKept(fl, stolen, next, prev, x.free, m.freeList.next[..], m.freeList.prev[..],
               Minus(WithE(x, j, 0), c, FrameOf(E(x, j))).free);
  }

  // Allocation takes the head of the free list, if there is one.
  method AllocateStep(m: Manager, c: Cast, ghost s: State, ghost x: Scene,
                      ghost r: Roots, ghost fl: Link, ghost stolen: seq<nat>)
    returns (p: Option<nat>)
    requires Playing(m, s, c, x, r, fl, stolen)
    modifies m.refs, m.freeList, m.freeList.next, m.freeList.prev
    ensures x.free == [] ==> p == None && Playing(m, s, c, x, r, fl, stolen)
    ensures x.free != [] ==> p == Some(x.free[0]) && Playing(m, s, c, x.(free := x.free[1..]), r, fl, stolen)
  {
    ghost var next, prev := m.freeList.next[..], m.freeList.prev[..];
    PlayersNotStolen(c, x, stolen);
    AllocateKeepsInv(m.Abs(), r);
    p := m.AllocateFrame();
    StolenKept(fl, stolen, next, prev, x.free, m.freeList.next[..], m.freeList.prev[..], m.freeList.contents);
  }

  method Va2paStep(m: Manager, c: Cast, j: nat, ghost s: State, ghost x: Scene,
                   ghost r: Roots, ghost fl: Link, ghost stolen: seq<nat>)
    returns (pa: Word)
    requires Playing(m, s, c, x, r, fl, stolen) && j < 2
    ensures pa == if x.table && E(x, j) != 0 then FrameOf(E(x, j)) * PAGE_SIZE else Paging.NOT_MAPPED
  {
    Va2paScene(s, c, x, j);
    pa := Paging.Va2pa(m.mem, c.d, Va(j));
  }

  const OPENING := Scene(false, 0, 0, 0, 0, 0, [])

  ghost predicate Unused(s: State, r: Roots, d: nat) {
    && Inv(s, r) && d in r.dirs && |s.free| >= 3
    && Paging.Pde(s, d, 0) == 0 && Paging.Pde(s, d, PTSIZE) == 0
  }

  ghost predicate IsCast(s: State, c: Cast, d: nat)
    requires |s.free| >= 3
  {
    c.d == d && c.p0 == s.free[0] && c.p1 == s.free[1] && c.p2 == s.free[2]
  }

  lemma OpeningScene(s: State, r: Roots, c: Cast)
    requires Unused(s, r, c.d) && IsCast(s, c, c.d)
    ensures CastOk(s, c) && SceneOk(c, OPENING) && At(s, c, OPENING) == s.(free := [])
    ensures s.refs[c.p0] == 0 && s.refs[c.p1] == 0 && s.refs[c.p2] == 0
    ensures Inv(s.(free := []), r)
    ensures c.p0 !in s.free[3..] && c.p1 !in s.free[3..] && c.p2 !in s.free[3..]
  {
    OpeningFrames(s, r, c);
    FewerFreeKeepsInv(s, r, []);
  }

  lemma OpeningFrames(s: State, r: Roots, c: Cast)
    requires Unused(s, r, c.d) && IsCast(s, c, c.d)
    ensures CastOk(s, c) && At(s, c, OPENING) == s.(free := [])
    ensures s.refs[c.p0] == 0 && s.refs[c.p1] == 0 && s.refs[c.p2] == 0
    ensures c.p0 !in s.free[3..] && c.p1 !in s.free[3..] && c.p2 !in s.free[3..]
  {
    assert c.p0 in s.free;
    FreeIsUnused(s, r, c.p0);
    assert s.refs[c.p0 := 0][c.p1 := 0][c.p2 := 0] == s.refs;
  }

  // The first three frames are taken, the rest of the list is put aside.
  method Steal(m: Manager, d: nat, ghost r: Roots) returns (c: Cast, fl: Link)
    requires m.Valid() && Unused(m.Abs(), r, d)
    modifies m.refs, m.freeList, m.freeList.next, m.freeList.prev
    ensures IsCast(old(m.Abs()), c, d)
    ensures Playing(m, old(m.Abs()), c, OPENING, r, fl, old(m.freeList.contents)[3..])
  {
    ghost var s := m.Abs();
    OpeningScene(s, r, Cast(d, s.free[0], s.free[1], s.free[2]));
    c := TakeThree(m, d);
    fl := m.freeList.first;
    m.freeList.Init();
    assert m.Abs() == At(s, c, OPENING);
  }

  method TakeThree(m: Manager, d: Frame) returns (c: Cast)
    requires m.Valid() && |m.freeList.contents| >= 3
    modifies m.refs, m.freeList, m.freeList.next, m.freeList.prev
    ensures m.Valid() && c == Cast(d, old(m.Abs()).free[0], old(m.Abs()).free[1], old(m.Abs()).free[2])
    ensures m.refs[..] == old(m.refs[..])[c.p0 := 0][c.p1 := 0][c.p2 := 0]
    ensures m.freeList.contents == old(m.freeList.contents)[3..]
  {
    var pp0 := m.AllocateFrame();
    assert pp0 != None;
    var pp1 := m.AllocateFrame();
    assert pp1 != None && pp1 != pp0;
    var pp2 := m.AllocateFrame();
    assert pp2 != None && pp2 != pp1 && pp2 != pp0;
    c := Cast(d, pp0.value, pp1.value, pp2.value);
  }

  // Frame p0 goes back to the empty list.
  method FreeStep(m: Manager, c: Cast, ghost s: State, ghost r: Roots, ghost fl: Link, ghost stolen: seq<nat>)
    requires Playing(m, s, c, OPENING, r, fl, stolen)
    modifies m.freeList, m.freeList.next, m.freeList.prev
    ensures Playing(m, s, c, OPENING.(free := [c.p0]), r, fl, stolen)
  {
    ghost var next, prev := m.freeList.next[..], m.freeList.prev[..];
    FreeKeepsInv(m.Abs(), r, c.p0);
    m.FreeFrame(c.p0);
    StolenKept(fl, stolen, next, prev, [], m.freeList.next[..], m.freeList.prev[..], [c.p0]);
    assert m.Abs() == At(s, c, OPENING.(free := [c.p0]));
  }

  // map_frame of frame f at address va, in a directory entry that has no table, with no frame left.
  method MapFails(m: Manager, d: nat, f: nat, va: Word, ghost r: Roots)
    requires m.Valid() && Inv(m.Abs(), r) && d in r.dirs && va < USER_TOP
    requires m.freeList.contents == [] && f < m.refs.Length && m.mem[Paging.Slot(d, PDX(va))] == 0
    modifies m.mem, m.refs, m.freeList, m.freeList.next, m.freeList.prev
    ensures m.Valid() && m.Abs() == old(m.Abs())
    ensures m.freeList.next[..] == old(m.freeList.next[..]) && m.freeList.prev[..] == old(m.freeList.prev[..])
  {
    ghost var next, prev := m.freeList.next[..], m.freeList.prev[..];
    var ok := m.MapFrame(d, f, va, 0, r);
    assert !ok;
    assert m.freeList.next[..] == next;
    assert m.freeList.prev[..] == prev;
  }

  // The scenes of the script.
  ghost function Scene1(c: Cast): Scene { Scene(true, PageEntry(c.p1), 0, 1, 1, 0, []) }

  ghost function Scene2(c: Cast): Scene { Scene(true, PageEntry(c.p1), PageEntry(c.p2), 1, 1, 1, []) }

  ghost function Scene3(c: Cast): Scene { Scene(true, PageEntry(c.p1), PageEntry(c.p1), 1, 2, 0, []) }

  ghost function Scene4(c: Cast): Scene { Scene(true, 0, PageEntry(c.p1), 1, 1, 0, []) }

  const CURTAIN := Scene(true, 0, 0, 1, 0, 0, [])

  // Without a frame on the list there is no page table, and map_frame fails.
  method Act0(m: Manager, c: Cast, ghost s: State, ghost r: Roots, ghost fl: Link, ghost stolen: seq<nat>)
    requires Playing(m, s, c, OPENING, r, fl, stolen)
    modifies m.mem, m.refs, m.freeList, m.freeList.next, m.freeList.prev
    ensures Playing(m, s, c, OPENING.(free := [c.p0]), r, fl, stolen)
  {
    var pp := AllocateStep(m, c, s, OPENING, r, fl, stolen);
    assert pp == None;
    var ok := MapStep(m, c, 0, c.p1, s, OPENING, r, fl, stolen);
    assert !ok;
    FreeStep(m, c, s, r, fl, stolen);
  }

  // pp0 should be used for the page table, and only once.
  method Act1(m: Manager, c: Cast, ghost s: State, ghost r: Roots, ghost fl: Link, ghost stolen: seq<nat>)
    requires Playing(m, s, c, OPENING.(free := [c.p0]), r, fl, stolen)
    modifies m.mem, m.refs, m.freeList, m.freeList.next, m.freeList.prev
    ensures Playing(m, s, c, Scene2(c), r, fl, stolen)
  {
    var ok := MapStep(m, c, 0, c.p1, s, OPENING.(free := [c.p0]), r, fl, stolen);
    assert ok;
    assert Playing(m, s, c, Scene1(c), r, fl, stolen);
    Act1Checks(m, c, s, r, fl, stolen);
    ok := MapStep(m, c, 1, c.p2, s, Scene1(c), r, fl, stolen);
    assert ok;
    var pa := Va2paStep(m, c, 1, s, Scene2(c), r, fl, stolen);
    assert pa == c.p2 * PAGE_SIZE && m.refs[c.p2] == 1;
  }

  method Act1Checks(m: Manager, c: Cast, ghost s: State, ghost r: Roots, ghost fl: Link, ghost stolen: seq<nat>)
    requires Playing(m, s, c, Scene1(c), r, fl, stolen)
  {
    AtShape(s, c, Scene1(c));
    assert ExtractAddress(m.mem[Paging.Slot(c.d, 0)]) == c.p0 * PAGE_SIZE;
    var pa := Va2paStep(m, c, 0, s, Scene1(c), r, fl, stolen);
    assert pa == c.p1 * PAGE_SIZE;
    assert m.refs[c.p1] == 1 && m.refs[c.p0] == 1;
  }

  // pp2 is already there, and no frame is left for another page table.
  method Act2(m: Manager, c: Cast, ghost s: State, ghost r: Roots, ghost fl: Link, ghost stolen: seq<nat>)
    requires Playing(m, s, c, Scene2(c), r, fl, stolen)
    modifies m.mem, m.refs, m.freeList, m.freeList.next, m.freeList.prev
    ensures Playing(m, s, c, Scene2(c), r, fl, stolen)
  {
    var pp := AllocateStep(m, c, s, Scene2(c), r, fl, stolen);
    assert pp == None;
    var ok := MapStep(m, c, 1, c.p2, s, Scene2(c), r, fl, stolen);
    assert ok;
    var pa := Va2paStep(m, c, 1, s, Scene2(c), r, fl, stolen);
    assert pa == c.p2 * PAGE_SIZE && m.refs[c.p2] == 1;
    Act2Fails(m, c, s, r, fl, stolen);
  }

  method Act2Fails(m: Manager, c: Cast, ghost s: State, ghost r: Roots, ghost fl: Link, ghost stolen: seq<nat>)
    requires Playing(m, s, c, Scene2(c), r, fl, stolen)
    modifies m.mem, m.refs, m.freeList, m.freeList.next, m.freeList.prev
    ensures Playing(m, s, c, Scene2(c), r, fl, stolen)
  {
    var pp := AllocateStep(m, c, s, Scene2(c), r, fl, stolen);
    assert pp == None;
    AtShape(s, c, Scene2(c));
    MapFails(m, c.d, c.p0, PTSIZE, r);
  }

  // pp1 replaces pp2, which is freed.
  method Act3(m: Manager, c: Cast, ghost s: State, ghost r: Roots, ghost fl: Link, ghost stolen: seq<nat>)
    requires Playing(m, s, c, Scene2(c), r, fl, stolen)
    modifies m.mem, m.refs, m.freeList, m.freeList.next, m.freeList.prev
    ensures Playing(m, s, c, Scene3(c), r, fl, stolen)
  {
    var ok := MapStep(m, c, 1, c.p1, s, Scene2(c), r, fl, stolen);
    assert ok;
    ghost var x := Scene3(c).(free := [c.p2]);
    assert Playing(m, s, c, x, r, fl, stolen);
    Act3Checks(m, c, s, r, fl, stolen);
    var pp := AllocateStep(m, c, s, x, r, fl, stolen);
    assert pp == Some(c.p2);
  }

  // Both pages now map frame p1, which counts two; p2 is back on the list.
  method Act3Checks(m: Manager, c: Cast, ghost s: State, ghost r: Roots, ghost fl: Link, ghost stolen: seq<nat>)
    requires Playing(m, s, c, Scene3(c).(free := [c.p2]), r, fl, stolen)
  {
    ghost var x := Scene3(c).(free := [c.p2]);
    var pa := Va2paStep(m, c, 0, s, x, r, fl, stolen);
    assert pa == c.p1 * PAGE_SIZE;
    pa := Va2paStep(m, c, 1, s, x, r, fl, stolen);
    assert pa == c.p1 * PAGE_SIZE && m.refs[c.p1] == 2 && m.refs[c.p2] == 0;
  }

  // Page 0 is unmapped: one reference to p1 is left, from page 1.
  method Act4(m: Manager, c: Cast, ghost s: State, ghost r: Roots, ghost fl: Link, ghost stolen: seq<nat>)
    requires Playing(m, s, c, Scene3(c), r, fl, stolen)
    modifies m.mem, m.refs, m.freeList, m.freeList.next, m.freeList.prev
    ensures Playing(m, s, c, Scene4(c), r, fl, stolen)
  {
    UnmapStep(m, c, 0, s, Scene3(c), r, fl, stolen);
    var pa := Va2paStep(m, c, 0, s, Scene4(c), r, fl, stolen);
    assert pa == Paging.NOT_MAPPED;
    pa := Va2paStep(m, c, 1, s, Scene4(c), r, fl, stolen);
    assert pa == c.p1 * PAGE_SIZE && m.refs[c.p1] == 1 && m.refs[c.p2] == 0;
  }

  // Page 1 is unmapped too, and p1 goes back to the list.
  method Act5(m: Manager, c: Cast, ghost s: State, ghost r: Roots, ghost fl: Link, ghost stolen: seq<nat>)
    requires Playing(m, s, c, Scene4(c), r, fl, stolen)
    modifies m.mem, m.refs, m.freeList, m.freeList.next, m.freeList.prev
    ensures Playing(m, s, c, CURTAIN, r, fl, stolen)
  {
    UnmapStep(m, c, 1, s, Scene4(c), r, fl, stolen);
    ghost var x := CURTAIN.(free := [c.p1]);
    assert Playing(m, s, c, x, r, fl, stolen);
    Act5Checks(m, c, s, r, fl, stolen);
    var pp := AllocateStep(m, c, s, x, r, fl, stolen);
    assert pp == Some(c.p1);
    assert x.(free := x.free[1..]) == CURTAIN;
    Act6(m, c, s, r, fl, stolen);
  }

  method Act5Checks(m: Manager, c: Cast, ghost s: State, ghost r: Roots, ghost fl: Link, ghost stolen: seq<nat>)
    requires Playing(m, s, c, CURTAIN.(free := [c.p1]), r, fl, stolen)
  {
    ghost var x := CURTAIN.(free := [c.p1]);
    var pa := Va2paStep(m, c, 0, s, x, r, fl, stolen);
    assert pa == Paging.NOT_MAPPED;
    pa := Va2paStep(m, c, 1, s, x, r, fl, stolen);
    assert pa == Paging.NOT_MAPPED && m.refs[c.p1] == 0 && m.refs[c.p2] == 0;
  }

  // The list is empty again, and p0 still serves as the page table.
  method Act6(m: Manager, c: Cast, ghost s: State, ghost r: Roots, ghost fl: Link, ghost stolen: seq<nat>)
    requires Playing(m, s, c, CURTAIN, r, fl, stolen)
    modifies m.refs, m.freeList, m.freeList.next, m.freeList.prev
    ensures Playing(m, s, c, CURTAIN, r, fl, stolen)
  {
    var pp := AllocateStep(m, c, s, CURTAIN, r, fl, stolen);
    assert pp == None;
    AtShape(s, c, CURTAIN);
    assert ExtractAddress(m.mem[Paging.Slot(c.d, 0)]) == c.p0 * PAGE_SIZE && m.refs[c.p0] == 1;
  }

  // The page table is torn out of the directory and the stolen list is put back.
  method TearDown(m: Manager, c: Cast, fl: Link, ghost s: State, ghost r: Roots)
    requires Unused(s, r, c.d) && IsCast(s, c, c.d)
    requires Playing(m, s, c, CURTAIN, r, fl, s.free[3..])
    modifies m.mem, m.refs, m.freeList
    ensures m.Valid()
    ensures m.Abs() == s.(mem := Paging.ZeroFrame(s.mem, c.p0), free := s.free[3..])
  {
    OpeningFrames(s, r, c);
    TearTable(m, c, s);
    m.freeList.first := fl;
    m.freeList.contents := s.free[3..];
  }

  method TearTable(m: Manager, c: Cast, ghost s: State)
    requires m.Valid() && CastOk(s, c) && m.Abs() == At(s, c, CURTAIN) && At(s, c, OPENING) == s.(free := [])
    modifies m.mem, m.refs
    ensures m.mem[..] == Paging.ZeroFrame(s.mem, c.p0) && m.refs[..] == s.refs
  {
    CurtainScene(s, c, CURTAIN);
    m.mem[Paging.Slot(c.d, 0)] := 0;
    m.refs[c.p0] := 0;
  }

  method Restore(m: Manager, c: Cast, fl: Link, ghost s: State, ghost r: Roots)
    requires Unused(s, r, c.d) && IsCast(s, c, c.d)
    requires Playing(m, s, c, CURTAIN, r, fl, s.free[3..])
    modifies m.mem, m.refs, m.freeList, m.freeList.next, m.freeList.prev
    ensures m.Valid() && m.Abs() == Restored(s, c)
  {
    OpeningFrames(s, r, c);
    TearDown(m, c, fl, s, r);
    m.FreeFrame(c.p0);
    m.FreeFrame(c.p1);
    m.FreeFrame(c.p2);
    assert m.Abs() == Restored(s, c);
  }

  // All as before, but for the order of the free list and the contents of one frame.
  ghost function Restored(s: State, c: Cast): State
    requires |s.free| >= 3
  {
    s.(mem := Paging.ZeroFrame(s.mem, c.p0), free := [c.p2] + ([c.p1] + ([c.p0] + s.free[3..])))
  }

  lemma RestoredKeepsInv(s: State, r: Roots, c: Cast)
    requires Unused(s, r, c.d) && IsCast(s, c, c.d)
    ensures Inv(Restored(s, c), r)
    ensures multiset(Restored(s, c).free) == multiset(s.free)
  {
    ReversedThree(s.free);
    FreeIsUnused(s, r, c.p0);
    var s' := s.(mem := Paging.ZeroFrame(s.mem, c.p0));
    Runs.OtherMemoryKeepsInv(s, r, s');
    FewerFreeKeepsInv(s', r, Restored(s, c).free);
    assert Restored(s, c) == s'.(free := Restored(s, c).free);
  }

  lemma ReversedThree(q: seq<nat>)
    requires |q| >= 3 && forall i, j :: 0 <= i < j < |q| ==> q[i] != q[j]
    ensures var q' := [q[2]] + ([q[1]] + ([q[0]] + q[3..]));
      && multiset(q') == multiset(q)
      && (forall i, j :: 0 <= i < j < |q'| ==> q'[i] != q'[j])
      && (forall i :: 0 <= i < |q'| ==> q'[i] in q)
  {
    assert q == [q[0]] + ([q[1]] + ([q[2]] + q[3..]));
  }

  // None of page_check's assertions fails, and it leaves the memory manager as it
  // found it: same counts, same frames on the free list, same directories.
  method Run(m: Manager, d: nat, ghost r: Roots)
    requires m.Valid() && Unused(m.Abs(), r, d)
    modifies m.mem, m.refs, m.freeList, m.freeList.next, m.freeList.prev
    ensures m.Valid() && Inv(m.Abs(), r)
    ensures m.Abs() == Restored(old(m.Abs()), Cast(d, old(m.Abs()).free[0], old(m.Abs()).free[1], old(m.Abs()).free[2]))
    ensures multiset(m.Abs().free) == multiset(old(m.Abs()).free)
  {
    ghost var s := m.Abs();
    var c, fl := Steal(m, d, r);
    ghost var stolen := s.free[3..];
    Act0(m, c, s, r, fl, stolen);
    Act1(m, c, s, r, fl, stolen);
    Act2(m, c, s, r, fl, stolen);
    Act3(m, c, s, r, fl, stolen);
    Act4(m, c, s, r, fl, stolen);
    Act5(m, c, s, r, fl, stolen);
    Restore(m, c, fl, s, r);
    RestoredKeepsInv(s, r, c);
  }
}
