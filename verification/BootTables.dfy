/**
 The page tables that the kernel builds while it boots, on values
 (kern/memory_manager.c:180-233): boot_get_page_table and boot_map_range take
 new tables from the bump allocator and never zero them.
 */
module BootTables {
  import opened Words

  // used: the frames below this number are taken.
  datatype Boot = Boot(mem: seq<Word>, used: nat)

  // Directory entries VPT and UVPT hold the directory itself.
  const SELF_VPT: nat := 959
  const SELF_UVPT: nat := 957
  const ENVS_INDEX: nat := 955  // PDX(UENVS)
  const FIRST_FRAME: nat := 256  // PHYS_EXTENDED_MEM / PAGE_SIZE: the kernel lies behind it

  // The permissions of entry i of directory d: the directory may be read by the user
  // through UVPT, the table of UENVS is opened to the user, all else is the kernel's.
  predicate Tagged(d: nat, i: nat, e: Word) {
    if FrameOf(e) == d && i == SELF_UVPT then Permissions(e) == PERM_PRESENT + PERM_USER
    else Permissions(e) == PERM_PRESENT + PERM_WRITEABLE ||
         (i == ENVS_INDEX && Permissions(e) == PERM_PRESENT + PERM_WRITEABLE + PERM_USER)
  }

  function Entry(mem: seq<Word>, d: nat, i: nat): Word
    requires d * 1024 + i < |mem|
  {
    mem[d * 1024 + i]
  }

  // Entries of directory d are empty, or the directory itself, or present
  // tables in frames that are in use, no frame twice, with the permissions they should have.
  ghost predicate BootOk(m: Boot, d: nat) {
    && |m.mem| % 1024 == 0
    && FIRST_FRAME <= d < m.used <= |m.mem| / 1024 <= 0x1_0000
    && (forall i :: 0 <= i < 1024 ==> TableOk(m, d, i))
    && (forall i, j :: 0 <= i < 1024 && 0 <= j < 1024 ==> NotShared(m, d, i, j))
  }

  ghost predicate TableOk(m: Boot, d: nat, i: nat)
    requires d * 1024 + i < |m.mem|
  {
    var e := Entry(m.mem, d, i);
    && (FrameOf(e) == 0 ==> e == 0)
    && (FrameOf(e) != 0 ==> Tagged(d, i, e) && FIRST_FRAME <= FrameOf(e) < m.used)
    && (FrameOf(e) == d ==> IsSelf(i))
  }

  ghost predicate NotShared(m: Boot, d: nat, i: nat, j: nat)
    requires d * 1024 + i < |m.mem| && d * 1024 + j < |m.mem|
  {
    var f := FrameOf(Entry(m.mem, d, i));
    f != 0 && f != d && FrameOf(Entry(m.mem, d, j)) == f ==> i == j
  }

  // boot_get_page_table with create set
  function WithTable(m: Boot, d: nat, i: nat): Boot
    requires d * 1024 + i < |m.mem| && m.used < 0x10_0000
  {
    if FrameOf(Entry(m.mem, d, i)) != 0 then m
    else Boot(m.mem[d * 1024 + i := ConstructEntry(m.used, PERM_PRESENT + PERM_WRITEABLE)], m.used + 1)
  }

  // The word that translates page p.
  function PageWord(mem: seq<Word>, d: nat, p: nat): nat
    requires d * 1024 + p / 1024 < |mem|
  {
    FrameOf(Entry(mem, d, p / 1024)) * 1024 + p % 1024
  }

  // The tables that directory entries lo, ..., hi - 1 still lack.
  function Missing(mem: seq<Word>, d: nat, lo: nat, hi: nat): nat
    requires d * 1024 + hi <= |mem|
  {
    if hi <= lo then 0 else Missing(mem, d, lo, hi - 1) + (if FrameOf(Entry(mem, d, hi - 1)) == 0 then 1 else 0)
  }

  // One iteration of boot_map_range: the word for page p, in its table, becomes e.
  function WithPage(m: Boot, d: nat, p: nat, e: Word): Boot
    requires d * 1024 + p / 1024 < |m.mem| && m.used < 0x10_0000
    requires PageWord(WithTable(m, d, p / 1024).mem, d, p) < |m.mem|
  {
    var t := WithTable(m, d, p / 1024);
    Boot(t.mem[PageWord(t.mem, d, p) := e], t.used)
  }

  // The entry that translates page p, 0 without a table.
  function PageEntry(mem: seq<Word>, d: nat, p: nat): Word
    requires d * 1024 + p / 1024 < |mem|
  {
    if FrameOf(Entry(mem, d, p / 1024)) == 0 || PageWord(mem, d, p) >= |mem| then 0 else mem[PageWord(mem, d, p)]
  }

  predicate IsSelf(i: nat) { i == SELF_VPT || i == SELF_UVPT }

  // From m to m' only the pages in lo..hi were mapped: tables stay where they
  // are and new ones come from fresh frames, directory entries elsewhere and all
  // other translations are unchanged, and memory in use that holds no table is
  // not touched.
  ghost predicate Extends(m: Boot, m': Boot, d: nat, lo: nat, hi: nat)
    requires d * 1024 + 1024 <= |m.mem|
  {
    && |m'.mem| == |m.mem| && m.used <= m'.used
    && (forall i :: 0 <= i < 1024 ==> EntryKept(m, m', d, lo, hi, i))
    && (forall p :: 0 <= p < 0x10_0000 && !(lo <= p < hi) ==> PageKept(m, m', d, p))
    && (forall k :: 0 <= k < |m.mem| ==> WordKept(m, m', d, k))
    && (forall k :: 0 <= k < |m.mem| ==> OnlyPages(m, m', d, lo, hi, k))
  }

  // Outside the directory nothing is written but the words of the pages in lo..hi.
  ghost predicate OnlyPages(m: Boot, m': Boot, d: nat, lo: nat, hi: nat, k: nat)
    requires d * 1024 + 1024 <= |m.mem| == |m'.mem| && k < |m.mem|
  {
    (k / 1024 != d && forall p :: lo <= p < hi && p < 0x10_0000 && HasTable(m', d, p) ==> PageWord(m'.mem, d, p) != k)
    ==> m'.mem[k] == m.mem[k]
  }

  // A table once installed stays; a new one comes from a fresh frame, for the range.
  ghost predicate EntryKept(m: Boot, m': Boot, d: nat, lo: nat, hi: nat, i: nat)
    requires d * 1024 + i < |m.mem| == |m'.mem|
  {
    Entry(m'.mem, d, i) == Entry(m.mem, d, i) ||
    (FrameOf(Entry(m.mem, d, i)) == 0 && FrameOf(Entry(m'.mem, d, i)) >= m.used && lo / 1024 <= i && i * 1024 < hi && lo < hi)
  }

  ghost predicate PageKept(m: Boot, m': Boot, d: nat, p: nat)
    requires d * 1024 + p / 1024 < |m.mem| == |m'.mem|
  {
    HasTable(m, d, p) ==> HasTable(m', d, p) && PageEntry(m'.mem, d, p) == PageEntry(m.mem, d, p)
  }

  ghost predicate WordKept(m: Boot, m': Boot, d: nat, k: nat)
    requires d * 1024 + 1024 <= |m.mem| == |m'.mem| && k < |m.mem|
  {
    Bystander(m, d, k) ==> Bystander(m', d, k) && m'.mem[k] == m.mem[k]
  }

  // Page p has a table that is not the directory itself.
  ghost predicate HasTable(m: Boot, d: nat, p: nat)
    requires d * 1024 + p / 1024 < |m.mem|
  {
    FrameOf(Entry(m.mem, d, p / 1024)) != 0 && FrameOf(Entry(m.mem, d, p / 1024)) != d
  }

  // Word k lies in a frame in use that is neither the directory nor a table.
  ghost predicate Bystander(m: Boot, d: nat, k: nat)
    requires d * 1024 + 1024 <= |m.mem|
  {
    && k / 1024 < m.used && k / 1024 != d
    && forall i :: 0 <= i < 1024 && FrameOf(Entry(m.mem, d, i)) != 0 ==> FrameOf(Entry(m.mem, d, i)) != k / 1024
  }

  lemma WithTableOk(m: Boot, d: nat, i: nat)
    requires BootOk(m, d) && i < 1024 && FrameOf(Entry(m.mem, d, i)) != d
    requires FrameOf(Entry(m.mem, d, i)) == 0 ==> m.used < |m.mem| / 1024
    ensures var m' := WithTable(m, d, i);
      && BootOk(m', d)
      && m'.used == m.used + (if FrameOf(Entry(m.mem, d, i)) == 0 then 1 else 0)
      && FrameOf(Entry(m'.mem, d, i)) != 0 && FrameOf(Entry(m'.mem, d, i)) != d
  {
    var m' := WithTable(m, d, i);
    assert TableOk(m, d, i);
    assert |m'.mem| == |m.mem|;
    assert forall j :: 0 <= j < 1024 && j != i ==> Entry(m'.mem, d, j) == Entry(m.mem, d, j);
    forall j | 0 <= j < 1024 ensures TableOk(m', d, j) {
      assert TableOk(m, d, j);
    }
    forall j, k | 0 <= j < 1024 && 0 <= k < 1024 ensures NotShared(m', d, j, k) {
      assert NotShared(m, d, j, k) && TableOk(m, d, j) && TableOk(m, d, k);
    }
  }

  lemma WithTableExtends(m: Boot, d: nat, p: nat)
    requires BootOk(m, d) && p < 0x10_0000 && FrameOf(Entry(m.mem, d, p / 1024)) != d
    requires FrameOf(Entry(m.mem, d, p / 1024)) == 0 ==> m.used < |m.mem| / 1024
    ensures Extends(m, WithTable(m, d, p / 1024), d, p, p + 1)
  {
    var i := p / 1024;
    WithTableOk(m, d, i);
    var m' := WithTable(m, d, i);
    assert forall j :: 0 <= j < 1024 && j != i ==> Entry(m'.mem, d, j) == Entry(m.mem, d, j);
    forall q | 0 <= q < 0x10_0000 && HasTable(m, d, q)
      ensures PageEntry(m'.mem, d, q) == PageEntry(m.mem, d, q)
    {
      assert TableOk(m, d, q / 1024);
      assert Entry(m'.mem, d, q / 1024) == Entry(m.mem, d, q / 1024);
    }
  }

  // Two pages are never translated by the same word.
  lemma WordsDiffer(m: Boot, d: nat, p: nat, q: nat)
    requires BootOk(m, d) && p < 0x10_0000 && q < 0x10_0000 && p != q
    requires HasTable(m, d, p) && HasTable(m, d, q)
    ensures PageWord(m.mem, d, p) != PageWord(m.mem, d, q)
    ensures PageWord(m.mem, d, p) < |m.mem| && PageWord(m.mem, d, p) / 1024 != d
  {
    assert NotShared(m, d, p / 1024, q / 1024);
    assert TableOk(m, d, p / 1024) && TableOk(m, d, q / 1024);
  }

  // Rewriting the word of page p in its table.
  lemma RewriteExtends(m: Boot, d: nat, p: nat, e: Word)
    requires BootOk(m, d) && p < 0x10_0000 && HasTable(m, d, p)
    ensures PageWord(m.mem, d, p) < |m.mem|
    ensures var m' := m.(mem := m.mem[PageWord(m.mem, d, p) := e]);
      && BootOk(m', d) && Extends(m, m', d, p, p + 1)
      && PageEntry(m'.mem, d, p) == e
      && (forall j :: 0 <= j < 1024 ==> Entry(m'.mem, d, j) == Entry(m.mem, d, j))
  {
    assert TableOk(m, d, p / 1024);
    var k := PageWord(m.mem, d, p);
    var m' := m.(mem := m.mem[k := e]);
    assert k / 1024 == FrameOf(Entry(m.mem, d, p / 1024));
    assert forall j :: 0 <= j < 1024 ==> Entry(m'.mem, d, j) == Entry(m.mem, d, j);
    forall j | 0 <= j < 1024 ensures TableOk(m', d, j) { assert TableOk(m, d, j); }
    forall j, j' | 0 <= j < 1024 && 0 <= j' < 1024 ensures NotShared(m', d, j, j') {
      assert NotShared(m, d, j, j');
    }
    forall q | 0 <= q < 0x10_0000 && q != p && HasTable(m, d, q)
      ensures PageEntry(m'.mem, d, q) == PageEntry(m.mem, d, q)
    {
      WordsDiffer(m, d, q, p);
    }
    assert HasTable(m', d, p) && PageWord(m'.mem, d, p) == k;
  }

  lemma WithPageExtends(m: Boot, d: nat, p: nat, e: Word)
    requires BootOk(m, d) && p < 0x10_0000 && FrameOf(Entry(m.mem, d, p / 1024)) != d
    requires FrameOf(Entry(m.mem, d, p / 1024)) == 0 ==> m.used < |m.mem| / 1024
    ensures PageWord(WithTable(m, d, p / 1024).mem, d, p) < |m.mem|
    ensures var m' := WithPage(m, d, p, e);
      && BootOk(m', d) && Extends(m, m', d, p, p + 1)
      && PageEntry(m'.mem, d, p) == e && FrameOf(Entry(m'.mem, d, p / 1024)) != 0
      && m'.used == m.used + (if FrameOf(Entry(m.mem, d, p / 1024)) == 0 then 1 else 0)
  {
    WithTableOk(m, d, p / 1024);
    WithTableExtends(m, d, p);
    var t := WithTable(m, d, p / 1024);
    RewriteExtends(t, d, p, e);
    ExtendsTwice(m, t, WithPage(m, d, p, e), d, p, p + 1, p, p + 1);
  }

  lemma ExtendsTwice(m: Boot, m1: Boot, m2: Boot, d: nat, lo: nat, mid: nat, lo': nat, hi: nat)
    requires d * 1024 + 1024 <= |m.mem|
    requires lo <= lo' && mid <= hi
    requires Extends(m, m1, d, lo, mid) && Extends(m1, m2, d, lo', hi)
    ensures Extends(m, m2, d, lo, hi)
  {
    forall i | 0 <= i < 1024 ensures EntryKept(m, m2, d, lo, hi, i) {
      assert EntryKept(m, m1, d, lo, mid, i) && EntryKept(m1, m2, d, lo', hi, i);
    }
    forall p | 0 <= p < 0x10_0000 && !(lo <= p < hi) ensures PageKept(m, m2, d, p) {
      assert PageKept(m, m1, d, p) && PageKept(m1, m2, d, p);
    }
    forall k | 0 <= k < |m.mem| ensures WordKept(m, m2, d, k) {
      assert WordKept(m, m1, d, k) && WordKept(m1, m2, d, k);
    }
    forall k | 0 <= k < |m.mem| ensures OnlyPages(m, m2, d, lo, hi, k) {
      OnlyPagesTwice(m, m1, m2, d, lo, mid, lo', hi, k);
    }
  }

  lemma OnlyPagesTwice(m: Boot, m1: Boot, m2: Boot, d: nat, lo: nat, mid: nat, lo': nat, hi: nat, k: nat)
    requires d * 1024 + 1024 <= |m.mem| && k < |m.mem|
    requires lo <= lo' && mid <= hi
    requires Extends(m, m1, d, lo, mid) && Extends(m1, m2, d, lo', hi)
    ensures OnlyPages(m, m2, d, lo, hi, k)
  {
    assert OnlyPages(m, m1, d, lo, mid, k) && OnlyPages(m1, m2, d, lo', hi, k);
    if k / 1024 != d && forall p :: lo <= p < hi && p < 0x10_0000 && HasTable(m2, d, p) ==> PageWord(m2.mem, d, p) != k {
      forall p | lo <= p < mid && p < 0x10_0000 && HasTable(m1, d, p) ensures PageWord(m1.mem, d, p) != k {
        assert EntryKept(m1, m2, d, lo', hi, p / 1024);
        assert HasTable(m2, d, p);
      }
    }
  }

  lemma OffSelfKept(m: Boot, m': Boot, d: nat, r: Range, lo: nat, hi: nat)
    requires d * 1024 + 1024 <= |m.mem| && r.p + r.k <= 0x10_0000 && d < m.used
    requires OffSelf(m.mem, d, r) && Extends(m, m', d, lo, hi)
    ensures OffSelf(m'.mem, d, r)
  {
    forall q | r.p <= q < r.p + r.k ensures FrameOf(Entry(m'.mem, d, q / 1024)) != d {
      assert EntryKept(m, m', d, lo, hi, q / 1024);
    }
  }

  // The first k pages from page p are mapped to consecutive frames from f.
  ghost predicate PagesMapped(mem: seq<Word>, d: nat, p: nat, k: nat, f: nat, perm: nat)
    requires d * 1024 + 1024 <= |mem| && p + k <= 0x10_0000 && f + k <= 0x10_0000 && perm < 4096
  {
    && (forall q :: p <= q < p + k ==> PageEntry(mem, d, q) == ConstructEntry(f + (q - p), perm))
    && (forall q :: p <= q < p + k ==> FrameOf(Entry(mem, d, q / 1024)) != 0)
  }

  // The directory entries of the first k pages from page p.
  function LastIndex(p: nat, k: nat): nat { if k == 0 then p / 1024 else (p + k - 1) / 1024 + 1 }

  // k pages from page p, mapped to the frames from f on.
  datatype Range = Range(p: nat, k: nat, f: nat, perm: nat)

  ghost predicate RangeOk(r: Range) {
    && r.p + r.k <= 0x10_0000 && r.f + r.k <= 0x10_0000 && r.perm < 4096 && r.perm % 2 == 1
  }

  // No page of the range is translated by the directory itself.
  ghost predicate OffSelf(mem: seq<Word>, d: nat, r: Range)
    requires d * 1024 + 1024 <= |mem| && r.p + r.k <= 0x10_0000
  {
    forall q :: r.p <= q < r.p + r.k ==> FrameOf(Entry(mem, d, q / 1024)) != d
  }

  // Mapping range r, started in m0, is in m after k pages.
  ghost predicate Progress(m0: Boot, m: Boot, d: nat, r: Range, k: nat) {
    && d * 1024 + 1024 <= |m0.mem| && RangeOk(r) && k <= r.k && d < m0.used && OffSelf(m0.mem, d, r)
    && m0.used + Missing(m0.mem, d, r.p / 1024, LastIndex(r.p, r.k)) <= |m0.mem| / 1024
    && BootOk(m, d)
    && Extends(m0, m, d, r.p, r.p + k)
    && PagesMapped(m.mem, d, r.p, k, r.f, r.perm)
    && m.used == m0.used + Missing(m0.mem, d, r.p / 1024, LastIndex(r.p, k))
  }

  lemma ProgressZero(m: Boot, d: nat, r: Range)
    requires BootOk(m, d) && RangeOk(r) && OffSelf(m.mem, d, r)
    requires m.used + Missing(m.mem, d, r.p / 1024, LastIndex(r.p, r.k)) <= |m.mem| / 1024
    ensures Progress(m, m, d, r, 0)
  {
    ExtendsNothing(m, d, r.p);
  }

  lemma ProgressOne(m0: Boot, m: Boot, d: nat, r: Range, k: nat)
    requires Progress(m0, m, d, r, k) && k < r.k
    ensures FrameOf(Entry(m.mem, d, (r.p + k) / 1024)) == 0 ==> m.used < |m.mem| / 1024
    ensures PageWord(WithTable(m, d, (r.p + k) / 1024).mem, d, r.p + k) < |m.mem|
    ensures Progress(m0, WithPage(m, d, r.p + k, ConstructEntry(r.f + k, r.perm)), d, r, k + 1)
  {
    OffSelfKept(m0, m, d, r, r.p, r.p + k);
    OneMoreTable(m0, m, d, r.p, k);
    MissingBound(m0.mem, d, r.p / 1024, LastIndex(r.p, k + 1), LastIndex(r.p, r.k));
    var e := ConstructEntry(r.f + k, r.perm);
    WithPageExtends(m, d, r.p + k, e);
    ProgressJoin(m0, m, WithPage(m, d, r.p + k, e), d, r, k);
  }

  lemma ProgressJoin(m0: Boot, m: Boot, m': Boot, d: nat, r: Range, k: nat)
    requires Progress(m0, m, d, r, k) && k < r.k
    requires BootOk(m', d) && Extends(m, m', d, r.p + k, r.p + k + 1)
    requires FrameOf(Entry(m'.mem, d, (r.p + k) / 1024)) != 0
    requires PageEntry(m'.mem, d, r.p + k) == ConstructEntry(r.f + k, r.perm)
    requires m'.used == m.used + (if FrameOf(Entry(m.mem, d, (r.p + k) / 1024)) == 0 then 1 else 0)
    ensures Progress(m0, m', d, r, k + 1)
  {
    OffSelfKept(m0, m, d, r, r.p, r.p + k);
    OneMoreTable(m0, m, d, r.p, k);
    ExtendsTwice(m0, m, m', d, r.p, r.p + k, r.p + k, r.p + k + 1);
    OneMorePage(m, m', d, r.p, k, r.f, r.perm);
  }

  lemma OneMorePage(m: Boot, m': Boot, d: nat, p: nat, k: nat, f: nat, perm: nat)
    requires d * 1024 + 1024 <= |m.mem| && p + k < 0x10_0000 && f + k < 0x10_0000 && perm < 4096
    requires PagesMapped(m.mem, d, p, k, f, perm) && Extends(m, m', d, p + k, p + k + 1)
    requires forall q :: p <= q < p + k ==> FrameOf(Entry(m.mem, d, q / 1024)) != d
    requires FrameOf(Entry(m'.mem, d, (p + k) / 1024)) != 0
    requires PageEntry(m'.mem, d, p + k) == ConstructEntry(f + k, perm)
    ensures PagesMapped(m'.mem, d, p, k + 1, f, perm)
  {
    forall q | p <= q < p + k
      ensures PageEntry(m'.mem, d, q) == PageEntry(m.mem, d, q)
      ensures FrameOf(Entry(m'.mem, d, q / 1024)) != 0
    {
      assert HasTable(m, d, q) && PageKept(m, m', d, q);
    }
  }

  // The page after k pages needs a table exactly when its directory entry is a
  // further one that was empty from the start.
  lemma OneMoreTable(m0: Boot, m: Boot, d: nat, p: nat, k: nat)
    requires d * 1024 + 1024 <= |m0.mem| && p + k < 0x10_0000
    requires Extends(m0, m, d, p, p + k)
    requires forall q :: p <= q < p + k ==> FrameOf(Entry(m.mem, d, q / 1024)) != 0
    ensures Missing(m0.mem, d, p / 1024, LastIndex(p, k + 1)) ==
      Missing(m0.mem, d, p / 1024, LastIndex(p, k)) + (if FrameOf(Entry(m.mem, d, (p + k) / 1024)) == 0 then 1 else 0)
  {
    var i := (p + k) / 1024;
    if k > 0 && (p + k - 1) / 1024 == i {
      assert FrameOf(Entry(m.mem, d, (p + k - 1) / 1024)) != 0;
    } else {
      assert LastIndex(p, k) == i && EntryKept(m0, m, d, p, p + k, i);
      assert Entry(m.mem, d, i) == Entry(m0.mem, d, i);
    }
  }

  lemma ExtendsNothing(m: Boot, d: nat, p: nat)
    requires d * 1024 + 1024 <= |m.mem|
    ensures Extends(m, m, d, p, p)
  {
  }

  lemma MissingBound(mem: seq<Word>, d: nat, lo: nat, hi: nat, hi': nat)
    requires hi <= hi' && d * 1024 + hi' <= |mem|
    ensures Missing(mem, d, lo, hi) <= Missing(mem, d, lo, hi')
  {
  }

  // Frames not yet taken hold what they held in mem0.
  ghost predicate Unwritten(mem0: seq<Word>, mem: seq<Word>, used: nat) {
    |mem| == |mem0| && forall k :: 0 <= k < |mem| && k / 1024 >= used ==> mem[k] == mem0[k]
  }

  lemma UnwrittenTwice(mem0: seq<Word>, mem: seq<Word>, mem': seq<Word>, used: nat, used': nat)
    requires Unwritten(mem0, mem, used) && Unwritten(mem, mem', used') && used <= used'
    ensures Unwritten(mem0, mem', used')
  {
  }

  lemma ExtendsUnwritten(m: Boot, m': Boot, d: nat, lo: nat, hi: nat)
    requires BootOk(m', d) && d * 1024 + 1024 <= |m.mem| && Extends(m, m', d, lo, hi)
    ensures Unwritten(m.mem, m'.mem, m'.used)
  {
    forall k | 0 <= k < |m.mem| && k / 1024 >= m'.used ensures m'.mem[k] == m.mem[k] {
      assert OnlyPages(m, m', d, lo, hi, k);
      forall p | lo <= p < hi && p < 0x10_0000 && HasTable(m', d, p) ensures PageWord(m'.mem, d, p) != k {
        assert TableOk(m', d, p / 1024);
      }
    }
  }

  // The frames from f to f + k hold neither the directory nor a table.
  ghost predicate Apart(m: Boot, d: nat, f: nat, k: nat)
    requires d * 1024 + 1024 <= |m.mem|
  {
    && FIRST_FRAME <= f && f + k <= m.used && !(f <= d < f + k)
    && forall i :: 0 <= i < 1024 ==> !(f <= FrameOf(Entry(m.mem, d, i)) < f + k)
  }

  lemma AllocatedApart(m: Boot, m': Boot, d: nat, f: nat, k: nat)
    requires BootOk(m, d) && m'.mem == m.mem && f == m.used && m'.used == m.used + k
    ensures Apart(m', d, f, k)
  {
    forall i | 0 <= i < 1024 ensures !(f <= FrameOf(Entry(m'.mem, d, i)) < f + k) { assert TableOk(m, d, i); }
  }

  lemma ApartKept(m: Boot, m': Boot, d: nat, lo: nat, hi: nat, f: nat, k: nat)
    requires d * 1024 + 1024 <= |m.mem| && Apart(m, d, f, k) && Extends(m, m', d, lo, hi)
    ensures Apart(m', d, f, k)
  {
    forall i | 0 <= i < 1024 ensures !(f <= FrameOf(Entry(m'.mem, d, i)) < f + k) {
      assert EntryKept(m, m', d, lo, hi, i);
    }
  }

  // ----- what a directory maps so far

  predicate Between(lo: nat, i: nat, hi: nat) { lo <= i < hi }

  function Span(lo: nat, hi: nat): (r: set<nat>)
    ensures forall i :: i in r <==> lo <= i < hi
  {
    set i: nat | i < hi && Between(lo, i, hi)
  }

  // The directory entries that a range uses.
  function Indices(r: Range): set<nat> { Span(r.p / 1024, LastIndex(r.p, r.k)) }

  // Directory d maps the ranges, and exactly the entries in idx are not empty.
  ghost predicate Holds(m: Boot, d: nat, rs: seq<Range>, idx: set<nat>) {
    && BootOk(m, d)
    && (forall i :: 0 <= i < 1024 ==> (Entry(m.mem, d, i) != 0 <==> i in idx))
    && (forall j :: 0 <= j < |rs| ==> Mapped(m, d, rs[j], idx))
  }

  ghost predicate Mapped(m: Boot, d: nat, r: Range, idx: set<nat>)
    requires d * 1024 + 1024 <= |m.mem|
  {
    RangeOk(r) && 0 < r.k && Indices(r) <= idx && PagesMapped(m.mem, d, r.p, r.k, r.f, r.perm) && OffSelf(m.mem, d, r)
  }

  lemma MissingAll(mem: seq<Word>, d: nat, lo: nat, hi: nat)
    requires lo <= hi && d * 1024 + hi <= |mem|
    requires forall i :: lo <= i < hi ==> Entry(mem, d, i) == 0
    ensures Missing(mem, d, lo, hi) == hi - lo
  {
  }

  lemma RangeIndex(r: Range, q: nat)
    requires r.p <= q < r.p + r.k
    ensures q / 1024 in Indices(r)
  {
  }

  // Mapping one more range into empty directory entries.
  lemma HoldsOneMore(m: Boot, m': Boot, d: nat, rs: seq<Range>, idx: set<nat>, r: Range)
    requires Holds(m, d, rs, idx) && 0 < r.k && Indices(r) !! idx && Progress(m, m', d, r, r.k)
    ensures Holds(m', d, rs + [r], idx + Indices(r))
    ensures Missing(m.mem, d, r.p / 1024, LastIndex(r.p, r.k)) == LastIndex(r.p, r.k) - r.p / 1024
  {
    MissingAll(m.mem, d, r.p / 1024, LastIndex(r.p, r.k));
    forall i | 0 <= i < 1024 ensures Entry(m'.mem, d, i) != 0 <==> i in idx + Indices(r) {
      assert EntryKept(m, m', d, r.p, r.p + r.k, i) && TableOk(m, d, i) && TableOk(m', d, i);
      if i in Indices(r) {
        assert FrameOf(Entry(m'.mem, d, i)) != 0 by { IndexUsed(m', d, r, i); }
      }
    }
    OffSelfKept(m, m', d, r, r.p, r.p + r.k);
    forall j | 0 <= j < |rs| ensures Mapped(m', d, rs[j], idx + Indices(r)) {
      MappedKept(m, m', d, rs[j], idx, r);
    }
  }

  lemma IndexUsed(m: Boot, d: nat, r: Range, i: nat)
    requires d * 1024 + 1024 <= |m.mem| && RangeOk(r) && 0 < r.k && PagesMapped(m.mem, d, r.p, r.k, r.f, r.perm)
    requires i in Indices(r)
    ensures i < 1024 && FrameOf(Entry(m.mem, d, i)) != 0
  {
    var q := if i * 1024 < r.p then r.p else i * 1024;
    assert r.p <= q < r.p + r.k && q / 1024 == i;
  }

  lemma MappedKept(m: Boot, m': Boot, d: nat, r: Range, idx: set<nat>, r': Range)
    requires d * 1024 + 1024 <= |m.mem| && Mapped(m, d, r, idx) && RangeOk(r') && 0 < r'.k && Indices(r') !! idx
    requires Extends(m, m', d, r'.p, r'.p + r'.k) && d < m.used
    ensures Mapped(m', d, r, idx + Indices(r'))
  {
    OffSelfKept(m, m', d, r, r'.p, r'.p + r'.k);
    forall q | r.p <= q < r.p + r.k
      ensures PageEntry(m'.mem, d, q) == PageEntry(m.mem, d, q)
      ensures FrameOf(Entry(m'.mem, d, q / 1024)) != 0
    {
      RangeIndex(r, q);
      if r'.p <= q < r'.p + r'.k { RangeIndex(r', q); assert false; }
      assert HasTable(m, d, q) && PageKept(m, m', d, q);
    }
  }

  // Directory entry i of m' differs from m in nothing but its permissions.
  ghost predicate Retagged(m: Boot, m': Boot, d: nat, i: nat, e: Word)
    requires d * 1024 + 1024 <= |m.mem| && i < 1024
  {
    && m' == m.(mem := m.mem[d * 1024 + i := e])
    && FrameOf(e) == FrameOf(Entry(m.mem, d, i)) != 0 && Tagged(d, i, e)
  }

  lemma RetaggedHolds(m: Boot, m': Boot, d: nat, rs: seq<Range>, idx: set<nat>, i: nat, e: Word)
    requires Holds(m, d, rs, idx) && i < 1024 && Retagged(m, m', d, i, e)
    ensures Holds(m', d, rs, idx)
  {
    RewrittenHolds(m, m', d, rs, idx, i, e);
    assert idx + {i} == idx by { assert TableOk(m, d, i); }
  }

  // The directory becomes its own table at an empty VPT or UVPT entry.
  lemma SelfMapHolds(m: Boot, m': Boot, d: nat, rs: seq<Range>, idx: set<nat>, i: nat, e: Word)
    requires Holds(m, d, rs, idx) && IsSelf(i) && i !in idx
    requires m' == m.(mem := m.mem[d * 1024 + i := e]) && FrameOf(e) == d && Tagged(d, i, e)
    ensures Holds(m', d, rs, idx + {i})
  {
    RewrittenHolds(m, m', d, rs, idx, i, e);
  }

  lemma RewrittenHolds(m: Boot, m': Boot, d: nat, rs: seq<Range>, idx: set<nat>, i: nat, e: Word)
    requires Holds(m, d, rs, idx) && i < 1024
    requires m' == m.(mem := m.mem[d * 1024 + i := e]) && Tagged(d, i, e) && FrameOf(e) != 0
    requires FrameOf(e) == FrameOf(Entry(m.mem, d, i)) || (IsSelf(i) && FrameOf(e) == d && i !in idx)
    ensures Holds(m', d, rs, idx + {i})
  {
    assert forall j :: 0 <= j < 1024 && j != i ==> Entry(m'.mem, d, j) == Entry(m.mem, d, j);
    forall j | 0 <= j < 1024 ensures TableOk(m', d, j) { assert TableOk(m, d, j) && TableOk(m, d, i); }
    forall j, j' | 0 <= j < 1024 && 0 <= j' < 1024 ensures NotShared(m', d, j, j') {
      assert NotShared(m, d, j, j') && TableOk(m, d, j) && TableOk(m, d, j');
    }
    forall j | 0 <= j < |rs| ensures Mapped(m', d, rs[j], idx + {i}) {
      MappedRewritten(m, m', d, rs[j], idx, i, e);
    }
  }

  lemma MappedRewritten(m: Boot, m': Boot, d: nat, r: Range, idx: set<nat>, i: nat, e: Word)
    requires BootOk(m, d) && Mapped(m, d, r, idx) && i < 1024
    requires m' == m.(mem := m.mem[d * 1024 + i := e])
    requires FrameOf(e) == FrameOf(Entry(m.mem, d, i)) || i !in idx
    ensures Mapped(m', d, r, idx + {i})
  {
    forall q | r.p <= q < r.p + r.k
      ensures PageEntry(m'.mem, d, q) == PageEntry(m.mem, d, q)
      ensures FrameOf(Entry(m'.mem, d, q / 1024)) == FrameOf(Entry(m.mem, d, q / 1024))
    {
      assert TableOk(m, d, q / 1024) && HasTable(m, d, q);
      assert PageWord(m.mem, d, q) / 1024 != d;
    }
  }

  // Taking more frames leaves the directory as it is.
  lemma HoldsAllocated(m: Boot, m': Boot, d: nat, rs: seq<Range>, idx: set<nat>)
    requires Holds(m, d, rs, idx) && m'.mem == m.mem && m.used <= m'.used <= |m.mem| / 1024
    ensures Holds(m', d, rs, idx)
  {
    forall j | 0 <= j < 1024 ensures TableOk(m', d, j) { assert TableOk(m, d, j); }
    forall j, j' | 0 <= j < 1024 && 0 <= j' < 1024 ensures NotShared(m', d, j, j') {
      assert NotShared(m, d, j, j');
    }
    forall j | 0 <= j < |rs| ensures Mapped(m', d, rs[j], idx) {
      assert Mapped(m, d, rs[j], idx);
    }
  }

  // The two memories agree in the frames that the boot allocator has handed out.
  ghost predicate SameBootFrames(mem: seq<Word>, mem': seq<Word>, used: nat) {
    |mem'| == |mem| && forall k :: 0 <= k < |mem| && FIRST_FRAME <= k / 1024 < used ==> mem'[k] == mem[k]
  }

  lemma BootOkKept(m: Boot, m': Boot, d: nat)
    requires BootOk(m, d) && SameBootFrames(m.mem, m'.mem, m.used) && m'.used == m.used
    ensures BootOk(m', d) && forall i :: 0 <= i < 1024 ==> Entry(m'.mem, d, i) == Entry(m.mem, d, i)
  {
    assert forall i :: 0 <= i < 1024 ==> Entry(m'.mem, d, i) == Entry(m.mem, d, i);
    forall i | 0 <= i < 1024 ensures TableOk(m', d, i) { assert TableOk(m, d, i); }
    forall i, j | 0 <= i < 1024 && 0 <= j < 1024 ensures NotShared(m', d, i, j) { assert NotShared(m, d, i, j); }
  }

  lemma HoldsKept(m: Boot, m': Boot, d: nat, rs: seq<Range>, idx: set<nat>)
    requires Holds(m, d, rs, idx) && SameBootFrames(m.mem, m'.mem, m.used) && m'.used == m.used
    ensures Holds(m', d, rs, idx)
  {
    BootOkKept(m, m', d);
    forall j | 0 <= j < |rs| ensures Mapped(m', d, rs[j], idx) {
      forall q | rs[j].p <= q < rs[j].p + rs[j].k ensures PageEntry(m'.mem, d, q) == PageEntry(m.mem, d, q) {
        assert TableOk(m, d, q / 1024);
      }
    }
  }
}
