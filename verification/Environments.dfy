/**
 Environment slots and ids (kern/user_environment.c:92-106, 331-383,
 kern/helpers.c:331-364).  A slot's id carries a generation, so that the id of a
 slot's earlier occupant is recognised as stale until the generation wraps.
 */
module Environments {
  import opened Words

  const GENERATION: nat := 4096  // 1 << ENVGENSHIFT
  const PERIOD: nat := 0x7_FFFF  // generations before the ids of a slot repeat

  datatype Status = Free | Runnable

  // envid & ~(NENV - 1)
  function ClearIndex(id: Int32): Int32 { id - id % NENV }

  // ENVX
  function Envx(id: Int32): (i: nat)
    ensures i < NENV
  {
    id % NENV
  }

  // The id of the next environment in a slot whose last one had the given id.
  function NextId(id: Int32, slot: nat): (r: Int32)
    requires slot < NENV
    ensures r > 0 && Envx(r) == slot
  {
    var generation := ClearIndex(Wrap32(id + GENERATION));
    (if generation <= 0 then GENERATION else generation) + slot
  }

  // The id of a slot after n environments were created in it.
  function IdAfter(n: nat, slot: nat): Int32
    requires slot < NENV
  {
    if n == 0 then 0 else NextId(IdAfter(n - 1, slot), slot)
  }

  // The n-th environment of a slot has id 4096 * n + slot; after generation
  // 2^19 - 1 the ids start over.
  lemma {:induction false} IdsCountGenerations(n: nat, slot: nat)
    requires slot < NENV && n > 0
    ensures IdAfter(n, slot) == GENERATION * ((n - 1) % PERIOD + 1) + slot
  {
    if n > 1 {
      IdsCountGenerations(n - 1, slot);
      NextGeneration((n - 2) % PERIOD + 1, slot);
      NextRemainder(n - 2);
    }
  }

  lemma NextGeneration(g: nat, slot: nat)
    requires slot < NENV && 1 <= g <= PERIOD
    ensures GENERATION * g + slot < 0x8000_0000
    ensures NextId(GENERATION * g + slot, slot) == (if g == PERIOD then GENERATION else GENERATION * (g + 1)) + slot
  {
    var x := GENERATION * (g + 1) + slot;
    SlotOf(4 * (g + 1), slot);
    SlotOf(-0x20_0000, slot);
    assert Wrap32(x) == if g == PERIOD then -0x8000_0000 + slot else x;
  }

  lemma SlotOf(q: int, slot: nat)
    requires slot < NENV
    ensures (NENV * q + slot) % NENV == slot
  {
  }

  lemma NextRemainder(k: nat)
    ensures (k + 1) % PERIOD == if k % PERIOD == PERIOD - 1 then 0 else k % PERIOD + 1
  {
  }

  // Two occupants of a slot have the same id exactly if their distance is a
  // multiple of the period.
  lemma SameIdIff(m: nat, n: nat, slot: nat)
    requires slot < NENV && 0 < m <= n
    ensures IdAfter(m, slot) == IdAfter(n, slot) <==> (n - m) % PERIOD == 0
  {
    IdsCountGenerations(m, slot);
    IdsCountGenerations(n, slot);
    SameRemainder(m - 1, n - 1);
  }

  lemma SameRemainder(a: nat, b: nat)
    requires a <= b
    ensures a % PERIOD == b % PERIOD <==> (b - a) % PERIOD == 0
    decreases b - a
  {
    if b - a >= PERIOD {
      SameRemainder(a, b - PERIOD);
    }
  }

  // ----- the environment table

  // The saved registers, general ones first in the order of struct PushRegs.
  datatype Trapframe = Trapframe(general: seq<Word>, es: Count, ds: Count, trapno: Word, err: Word,
                                 eip: Word, cs: Count, eflags: Word, esp: Word, ss: Count)

  const GD_UT: nat := 0x18
  const GD_UD: nat := 0x20
  const USTACKTOP: nat := USER_TOP - 2 * PAGE_SIZE

  // Of an environment that has not run: no register of an earlier one, user
  // privilege in all selectors, and the stack at the top.
  const FRESH: Trapframe :=
    Trapframe([0, 0, 0, 0, 0, 0, 0, 0], GD_UD + 3, GD_UD + 3, 0, 0, 0, GD_UT + 3, 0, USTACKTOP, GD_UD + 3)

  // ids, status, parents, runs, saved: the fields of envs[]; free: env_free_list; cur: curenv.
  datatype Table = Table(ids: seq<Int32>, status: seq<Status>, parents: seq<Int32>, runs: seq<Word>,
                         saved: seq<Trapframe>, free: seq<nat>, cur: Option<nat>)

  predicate Sized(t: Table) {
    |t.ids| == |t.status| == |t.parents| == |t.runs| == |t.saved| == NENV
  }

  ghost predicate Shape(t: Table) {
    && Sized(t)
    && (forall i :: 0 <= i < |t.free| ==> t.free[i] < NENV)
    && (t.cur.Some? ==> t.cur.value < NENV)
  }

  // allocate_environment: the next slot, still on the free list.
  function AllocateEnvironment(t: Table): Option<nat> {
    if t.free == [] then None else Some(t.free[0])
  }

  // complete_environment_initialization of the slot at position k of the free list
  function Complete(t: Table, k: nat): Table
    requires k < |t.free| && t.free[k] < NENV && Sized(t)
  {
    var e := t.free[k];
    t.(ids := t.ids[e := NextId(t.ids[e], e)], status := t.status[e := Runnable], parents := t.parents[e := 0],
       runs := t.runs[e := 0], saved := t.saved[e := FRESH],
       free := t.free[..k] + t.free[k + 1..])
  }

  // env_run, up to the return to the user program
  function EnvRun(t: Table, e: nat): Table
    requires e < NENV && Sized(t)
  {
    if t.cur == Some(e) then t else t.(cur := Some(e), runs := t.runs[e := (t.runs[e] + 1) % TWO32])
  }

  function FreeEnvironment(t: Table, e: nat): Table
    requires e < |t.status|
  {
    t.(status := t.status[e := Free], free := [e] + t.free, cur := None)
  }

  // The id is that of a live environment.
  predicate Finds(t: Table, id: Int32)
    requires Sized(t)
  {
    id != 0 && t.status[Envx(id)] != Free && t.ids[Envx(id)] == id
  }

  // None is the error -E_BAD_ENV.  Id 0 stands for the current environment, if any.
  function Envid2env(t: Table, id: Int32, checkperm: bool): Option<Option<nat>>
    requires Sized(t) && (t.cur.Some? ==> t.cur.value < NENV)
    requires checkperm && Finds(t, id) ==> t.cur.Some?
  {
    if id == 0 then Some(t.cur)
    else
      var e := Envx(id);
      if !Finds(t, id) then None
      else if checkperm && Some(e) != t.cur && t.parents[e] != t.ids[t.cur.value] then None
      else Some(Some(e))
  }

  // born[i]: how many environments were ever created in slot i.
  ghost predicate Inv(t: Table, born: seq<nat>) {
    && Shape(t) && |born| == NENV
    && (t.cur.Some? ==> t.status[t.cur.value] != Free)
    && (forall i, j :: 0 <= i < j < |t.free| ==> t.free[i] != t.free[j])
    && (forall i :: 0 <= i < NENV ==> SlotOk(t, born, i))
  }

  ghost predicate SlotOk(t: Table, born: seq<nat>, i: nat)
    requires i < NENV == |born| && Sized(t)
  {
    && (i in t.free <==> t.status[i] == Free)
    && t.ids[i] == IdAfter(born[i], i)
    && (t.status[i] != Free ==> born[i] > 0 && t.parents[i] == 0)
  }

  // The slots from e on, in order.
  function From(e: nat): (q: seq<nat>)
    requires e <= NENV
    ensures |q| == NENV - e && forall i :: 0 <= i < |q| ==> q[i] == e + i
  {
    seq(NENV - e, i requires 0 <= i < NENV - e => e + i)
  }

  lemma FromNext(e: nat)
    requires e < NENV
    ensures From(e) == [e] + From(e + 1) && e !in From(e + 1)
  {
  }

  function NoneBorn(): seq<nat> { seq(NENV, _ => 0) }

  // env_init leaves every slot free and unborn; parent ids may be anything.
  lemma InitInv(t: Table)
    requires Sized(t) && t.cur == None && t.free == From(0)
    requires forall i :: 0 <= i < NENV ==> t.ids[i] == 0 && t.status[i] == Free
    ensures Inv(t, NoneBorn())
  {
    forall i | 0 <= i < NENV ensures SlotOk(t, NoneBorn(), i) {
      assert t.free[i] == i;
    }
  }

  lemma CompleteKeepsInv(t: Table, born: seq<nat>, k: nat)
    requires Inv(t, born) && k < |t.free|
    ensures Inv(Complete(t, k), born[t.free[k] := born[t.free[k]] + 1])
  {
    var e, t' := t.free[k], Complete(t, k);
    var born' := born[e := born[e] + 1];
    assert SlotOk(t, born, e);
    forall i | 0 <= i < NENV ensures SlotOk(t', born', i) {
      assert SlotOk(t, born, i);
      RestOfFree(t.free, k, i);
    }
  }

  lemma RestOfFree(q: seq<nat>, k: nat, x: nat)
    requires k < |q| && forall i, j :: 0 <= i < j < |q| ==> q[i] != q[j]
    ensures x in q[..k] + q[k + 1..] <==> x in q && x != q[k]
  {
    if x in q && x != q[k] {
      var i :| 0 <= i < |q| && q[i] == x;
      assert (q[..k] + q[k + 1..])[if i < k then i else i - 1] == x;
    }
  }

  lemma FreeKeepsInv(t: Table, born: seq<nat>, e: nat)
    requires Inv(t, born) && e < NENV && t.status[e] != Free
    ensures Inv(FreeEnvironment(t, e), born)
  {
    var t' := FreeEnvironment(t, e);
    assert SlotOk(t, born, e);
    forall i | 0 <= i < NENV ensures SlotOk(t', born, i) {
      assert SlotOk(t, born, i);
      assert i in t'.free <==> i == e || i in t.free;
    }
  }

  // The ids of live environments are positive, lead back to their slots, and are distinct.
  lemma LiveIds(t: Table, born: seq<nat>, i: nat, j: nat)
    requires Inv(t, born) && i < NENV && j < NENV && t.status[i] != Free && t.status[j] != Free
    ensures t.ids[i] > 0 && Envx(t.ids[i]) == i
    ensures t.ids[i] == t.ids[j] ==> i == j
  {
    assert SlotOk(t, born, i) && SlotOk(t, born, j);
  }

  // The id of the n-th occupant of slot i finds the slot exactly if the slot is
  // live and its present occupant is a whole number of periods later: an
  // earlier occupant is rejected until the generation wraps.
  lemma StaleIdsRejected(t: Table, born: seq<nat>, i: nat, n: nat)
    requires Inv(t, born) && i < NENV && 0 < n <= born[i]
    ensures Envid2env(t, IdAfter(n, i), false) ==
      if t.status[i] != Free && (born[i] - n) % PERIOD == 0 then Some(Some(i)) else None
  {
    assert SlotOk(t, born, i);
    SameIdIff(n, born[i], i);
  }

  // With checkperm only the current environment passes: every parent id is 0,
  // and no environment has that id.
  lemma PermissionIsSelf(t: Table, born: seq<nat>, id: Int32)
    requires Inv(t, born) && t.cur.Some? && id != 0
    ensures Envid2env(t, id, true) == if id == t.ids[t.cur.value] then Some(t.cur) else None
  {
    LiveIds(t, born, t.cur.value, t.cur.value);
    assert SlotOk(t, born, Envx(id)) && SlotOk(t, born, t.cur.value);
  }

  // No slot is found exactly if none is free; a slot that is found is free.
  lemma AllocateEnvironmentIff(t: Table, born: seq<nat>)
    requires Inv(t, born)
    ensures AllocateEnvironment(t) == None <==> forall i :: 0 <= i < NENV ==> t.status[i] != Free
    ensures AllocateEnvironment(t).Some? ==> AllocateEnvironment(t).value < NENV && t.status[AllocateEnvironment(t).value] == Free
  {
    if t.free != [] { assert SlotOk(t, born, t.free[0]); }
    forall i | 0 <= i < NENV && t.free == [] ensures t.status[i] != Free { assert SlotOk(t, born, i); }
  }

  // Without checkperm id 0 finds the current environment, if any, and any other
  // id exactly the live environment that has it.
  lemma Envid2envIff(t: Table, born: seq<nat>, id: Int32, e: nat)
    requires Inv(t, born)
    ensures Envid2env(t, 0, false) == Some(t.cur) && (t.cur.Some? ==> Envid2env(t, 0, true) == Some(t.cur))
    ensures id != 0 ==> (Envid2env(t, id, false) == Some(Some(e)) <==> e < NENV && t.status[e] != Free && t.ids[e] == id)
    ensures id != 0 ==> (Envid2env(t, id, false) == None <==> forall i :: 0 <= i < NENV && t.status[i] != Free ==> t.ids[i] != id)
  {
    forall i | 0 <= i < NENV && t.status[i] != Free ensures Envx(t.ids[i]) == i { LiveIds(t, born, i, i); }
  }

  // A new environment has not run, has no register of an earlier one, is found by
  // its id, and disturbs no other slot.
  lemma NewEnvironment(t: Table, born: seq<nat>, k: nat)
    requires Inv(t, born) && k < |t.free|
    ensures var (e, t') := (t.free[k], Complete(t, k));
      && Shape(t') && Envid2env(t', t'.ids[e], false) == Some(Some(e))
      && t'.runs[e] == 0 && IsFresh(t'.saved[e]) && t'.cur == t.cur
      && (forall i :: 0 <= i < NENV && i != e ==> SameSlot(t, t', i))
  {
    CompleteKeepsInv(t, born, k);
    Envid2envIff(Complete(t, k), born[t.free[k] := born[t.free[k]] + 1], Complete(t, k).ids[t.free[k]], t.free[k]);
    LiveIds(Complete(t, k), born[t.free[k] := born[t.free[k]] + 1], t.free[k], t.free[k]);
  }

  predicate SameSlot(t: Table, t': Table, i: nat)
    requires Sized(t) && Sized(t') && i < NENV
  {
    && t'.ids[i] == t.ids[i] && t'.status[i] == t.status[i] && t'.parents[i] == t.parents[i]
    && t'.runs[i] == t.runs[i] && t'.saved[i] == t.saved[i]
  }

  // User privilege in all four selectors, code in cs and data in the others, the
  // stack at USTACKTOP, and nothing else.
  predicate IsFresh(f: Trapframe) {
    && IsSelector(f.cs, 0x18) && IsSelector(f.ds, 0x20) && IsSelector(f.es, 0x20) && IsSelector(f.ss, 0x20)
    && f.esp == 0xEEBF_E000
    && |f.general| == 8 && (forall i :: 0 <= i < 8 ==> f.general[i] == 0)
    && f.trapno == 0 && f.err == 0 && f.eip == 0 && f.eflags == 0
  }

  // The descriptor at an offset in the GDT, with requested privilege level 3.
  predicate IsSelector(c: Count, offset: nat) { c % 4 == 3 && c - c % 4 == offset }

  // env_run makes the environment the current one; a switch is counted.
  lemma RunIsCounted(t: Table, e: nat)
    requires Shape(t) && e < NENV
    ensures var t' := EnvRun(t, e);
      && Shape(t') && t'.cur == Some(e) && Envid2env(t', 0, false) == Some(Some(e))
      && t'.runs[e] == (if t.cur == Some(e) then t.runs[e] else (t.runs[e] + 1) % TWO32)
      && t'.ids[e] == t.ids[e] && t'.status[e] == t.status[e] && t'.parents[e] == t.parents[e] && t'.saved[e] == t.saved[e]
      && (forall i :: 0 <= i < NENV && i != e ==> SameSlot(t, t', i))
      && t'.free == t.free
  {
  }

  // A freed environment is no longer found, its slot is the next to be given out,
  // there is no current environment, and every other live one is found as before.
  lemma FreedEnvironment(t: Table, born: seq<nat>, e: nat, i: nat)
    requires Inv(t, born) && e < NENV && t.status[e] != Free && i < NENV && t.status[i] != Free
    ensures var t' := FreeEnvironment(t, e);
      && Inv(t', born) && AllocateEnvironment(t') == Some(e) && Envid2env(t', 0, false) == Some(None)
      && Envid2env(t', t.ids[i], false) == if i == e then None else Some(Some(i))
  {
    FreeKeepsInv(t, born, e);
    LiveIds(t, born, i, e);
  }

  // ----- runs

  datatype Step = Create | Destroy(e: nat) | Switch(e: nat)

  datatype World = World(t: Table, born: seq<nat>)

  ghost predicate Enabled(w: World, step: Step) {
    match step
    case Create => true
    case Destroy(e) => e < |w.t.status| && w.t.status[e] != Free
    case Switch(e) => e < |w.t.status| && w.t.status[e] != Free  // env_run
  }

  ghost function Next(w: World, step: Step): World
    requires Shape(w.t) && |w.born| == NENV && Enabled(w, step)
  {
    match step
    case Create =>
      if AllocateEnvironment(w.t) == None then w
      else World(Complete(w.t, 0), w.born[w.t.free[0] := w.born[w.t.free[0]] + 1])
    case Destroy(e) => World(FreeEnvironment(w.t, e), w.born)
    case Switch(e) => World(EnvRun(w.t, e), w.born)
  }

  lemma NextKeepsInv(w: World, step: Step)
    requires Inv(w.t, w.born) && Enabled(w, step)
    ensures Inv(Next(w, step).t, Next(w, step).born)
    ensures forall i :: 0 <= i < NENV ==> w.born[i] <= Next(w, step).born[i]
  {
    match step
    case Create => if w.t.free != [] { CompleteKeepsInv(w.t, w.born, 0); }
    case Destroy(e) => FreeKeepsInv(w.t, w.born, e);
    case Switch(e) =>
      forall i | 0 <= i < NENV ensures SlotOk(Next(w, step).t, w.born, i) {
        assert SlotOk(w.t, w.born, i);
      }
  }

  ghost predicate Run(w: World, steps: seq<Step>, w': World)
    decreases |steps|
  {
    if steps == [] then w' == w
    else Shape(w.t) && |w.born| == NENV && Enabled(w, steps[0]) && Run(Next(w, steps[0]), steps[1..], w')
  }

  lemma {:induction false} RunKeepsInv(w: World, steps: seq<Step>, w': World)
    requires Inv(w.t, w.born) && Run(w, steps, w')
    ensures Inv(w'.t, w'.born)
    ensures forall i :: 0 <= i < NENV ==> w.born[i] <= w'.born[i]
    decreases |steps|
  {
    if steps != [] {
      NextKeepsInv(w, steps[0]);
      RunKeepsInv(Next(w, steps[0]), steps[1..], w');
    }
  }

  // Over every run: an id handed out at one time is, at any later time, either
  // rejected or names the very occupant it was given to, unless a whole number of
  // periods of environments was created in the slot meanwhile.
  lemma IdsOverRuns(w: World, steps: seq<Step>, w': World, i: nat)
    requires Inv(w.t, w.born) && Run(w, steps, w') && i < NENV && w.t.status[i] != Free
    ensures Inv(w'.t, w'.born) && w.born[i] <= w'.born[i]
    ensures Envid2env(w'.t, w.t.ids[i], false) ==
      if w'.t.status[i] != Free && (w'.born[i] - w.born[i]) % PERIOD == 0 then Some(Some(i)) else None
  {
    RunKeepsInv(w, steps, w');
    assert SlotOk(w.t, w.born, i);
    StaleIdsRejected(w'.t, w'.born, i, w.born[i]);
  }
}

/** The environment table as the kernel updates it in place. */
module EnvironmentTable {
  import opened Words
  import opened Queue
  import opened Environments
  import SelfMap

  class EnvTable {
    const ids: array<Int32>  // envs[i].env_id
    const parents: array<Int32>
    const status: array<Status>
    const runs: array<Word>
    const saved: array<Trapframe>  // env_tf
    const dirs: array<Frame>  // the frame of env_pgdir and env_cr3
    const freeList: List  // env_free_list, with the links inside envs
    var cur: Option<nat>  // curenv

    ghost predicate Valid()
      reads this, freeList, freeList.next, freeList.prev
    {
      && ids.Length == parents.Length == status.Length == runs.Length == saved.Length == dirs.Length == NENV
      && freeList.next.Length == freeList.prev.Length == NENV
      && ids != parents
      && freeList.Valid()
      && (cur.Some? ==> cur.value < NENV)
    }

    ghost function Abs(): Table
      reads this, ids, parents, status, runs, saved, freeList
    {
      Table(ids[..], status[..], parents[..], runs[..], saved[..], freeList.contents, cur)
    }

    // A table with arbitrary parent ids, counters and registers, after env_init.
    constructor ()
      ensures Valid() && Inv(Abs(), NoneBorn())
      ensures Abs().free == From(0) && cur == None
    {
      ids := new Int32[NENV];
      parents := new Int32[NENV];
      status := new Status[NENV];
      runs := new Word[NENV];
      saved := new Trapframe[NENV];
      dirs := new Frame[NENV];
      freeList := new List(NENV);
      cur := None;
      new;
      EnvInit();
      InitInv(Abs());
    }

    // env_init: every slot is free, the first slot at the head of the list.
    method EnvInit()
      requires Valid() && freeList.contents == []
      modifies ids, status, freeList, freeList.next, freeList.prev
      ensures Valid() && freeList.contents == From(0)
      ensures forall i :: 0 <= i < NENV ==> ids[i] == 0 && status[i] == Free
    {
      var e := NENV;
      while e > 0
        invariant Valid() && 0 <= e <= NENV
        invariant freeList.contents == From(e)
        invariant forall i :: e <= i < NENV ==> ids[i] == 0 && status[i] == Free
      {
        e := e - 1;
        FromNext(e);
        InitSlot(e);
      }
    }

    // The body of env_init's loop.
    method InitSlot(e: nat)
      requires Valid() && e < NENV && e !in freeList.contents
      modifies ids, status, freeList, freeList.next, freeList.prev
      ensures Valid() && freeList.contents == [e] + old(freeList.contents)
      ensures forall i :: 0 <= i < NENV ==> ids[i] == if i == e then 0 else old(ids[i])
      ensures forall i :: 0 <= i < NENV ==> status[i] == if i == e then Free else old(status[i])
    {
      status[e] := Free;
      ids[e] := 0;
      freeList.InsertHead(e);
    }

    method AllocateEnvironment() returns (e: Option<nat>)
      requires Valid()
      ensures e == Environments.AllocateEnvironment(Abs())
    {
      if freeList.first == Null {
        return None;
      }
      return Some(freeList.first.i);
    }

    // The slot's directory is in mem.
    method CompleteEnvironmentInitialization(e: nat, mem: array<Word>, ghost k: nat)
      requires Valid() && k < |freeList.contents| && e == freeList.contents[k]
      requires mem != runs && (e < NENV ==> dirs[e] * WORDS + WORDS <= mem.Length)
      modifies ids, parents, status, runs, saved, freeList, freeList.next, freeList.prev, mem
      ensures Valid() && e < NENV && Abs() == Complete(old(Abs()), k)
      ensures mem[..] == SelfMap.MapItself(old(mem[..]), old(dirs[e]))
    {
      freeList.LinksAt(k);
      WriteSelfEntries(dirs[e], mem);
      InitFields(e);
      // the slot is taken from here on
      freeList.Remove(e, k);
    }

    // The id of the new environment and the basic status variables.
    method InitFields(e: nat)
      requires e < ids.Length == parents.Length == status.Length == runs.Length == saved.Length == NENV
      requires ids != parents
      modifies ids, parents, status, runs, saved
      ensures ids[..] == old(ids[..])[e := NextId(old(ids[e]), e)] && parents[..] == old(parents[..])[e := 0]
      ensures status[..] == old(status[..])[e := Runnable] && runs[..] == old(runs[..])[e := 0]
      ensures saved[..] == old(saved[..])[e := FRESH]
    {
      var generation := ClearIndex(Wrap32(ids[e] + GENERATION));
      if generation <= 0 {
        generation := GENERATION;
      }
      assert generation + e == NextId(ids[e], e);
      ids[e] := generation + e;
      parents[e] := 0;
      status[e] := Runnable;
      runs[e] := 0;
      InitSaved(e);
    }

    // The first two assignments of complete_environment_initialization.
    static method WriteSelfEntries(d: Frame, mem: array<Word>)
      requires d * WORDS + WORDS <= mem.Length
      modifies mem
      ensures mem[..] == SelfMap.MapItself(old(mem[..]), d)
    {
      mem[d * WORDS + PDX(VPT)] := ConstructEntry(d, PERM_PRESENT + PERM_WRITEABLE);
      mem[d * WORDS + PDX(UVPT)] := ConstructEntry(d, PERM_PRESENT + PERM_USER);
    }

    // The saved registers: all zero, then the selectors and the stack.
    method InitSaved(e: nat)
      requires e < saved.Length
      modifies saved
      ensures saved[..] == old(saved[..])[e := FRESH]
    {
      saved[e] := Trapframe([0, 0, 0, 0, 0, 0, 0, 0], 0, 0, 0, 0, 0, 0, 0, 0, 0);
      saved[e] := saved[e].(ds := GD_UD + 3);
      saved[e] := saved[e].(es := GD_UD + 3);
      saved[e] := saved[e].(ss := GD_UD + 3);
      saved[e] := saved[e].(esp := USTACKTOP);
      saved[e] := saved[e].(cs := GD_UT + 3);
    }

    method EnvRun(e: nat)
      requires Valid() && e < NENV
      modifies this, runs
      ensures Valid() && Abs() == Environments.EnvRun(old(Abs()), e)
    {
      if cur != Some(e) {
        cur := Some(e);
        runs[e] := (runs[e] + 1) % TWO32;
      }
    }

    method FreeEnvironment(e: nat)
      requires Valid() && e < NENV && e !in freeList.contents
      modifies this, status, freeList, freeList.next, freeList.prev
      ensures Valid() && Abs() == Environments.FreeEnvironment(old(Abs()), e)
    {
      cur := None;
      status[e] := Free;
      freeList.InsertHead(e);
    }

    method Envid2env(id: Int32, checkperm: bool) returns (e: Option<Option<nat>>)
      requires Valid() && (checkperm && Finds(Abs(), id) ==> cur.Some?)
      ensures e == Environments.Envid2env(Abs(), id, checkperm)
    {
      if id == 0 {
        return Some(cur);
      }
      var i := Envx(id);
      if status[i] == Free || ids[i] != id {
        return None;
      }
      if checkperm && Some(i) != cur && parents[i] != ids[cur.value] {
        return None;
      }
      return Some(Some(i));
    }
  }
}
