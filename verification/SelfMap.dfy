/**
 The directory as its own page table (kern/helpers.c:307-321,
 inc/memlayout.h:140-156): through the VPT and UVPT entries every page-table word
 of the address space has a virtual address of its own.
 */
module SelfMap {
  import opened Words
  import opened Paging
  import opened ReferenceCounts
  import BootTables
  import FlatMap
  import KernelVM
  import Runs

  // The word of memory that an address with indices i and j and offset o reaches
  // through directory d.
  ghost function Reached(mem: seq<Word>, d: nat, i: nat, j: nat, o: nat): nat
    requires PageWalks(mem, d, i, j)
  {
    (Translate(mem, d, i, j) + o) / 4
  }

  // Directory entry b holds the directory itself.
  ghost predicate SelfMapped(mem: seq<Word>, d: nat, b: nat) {
    && d < 0x10_0000 && b < 1024 && d * 1024 + 1024 <= |mem|
    && Present(mem[Slot(d, b)]) && FrameOf(mem[Slot(d, b)]) == d
  }

  // vpt[VPN(va)] in the window that starts at directory index b.
  function VptAddress(b: nat, va: Word): Word
    requires b < 1024
  {
    b * PTSIZE + 4 * PPN(va)
  }

  // vpd[i] in that window.
  function VpdAddress(b: nat, i: nat): Word
    requires b < 1024 && i < 1024
  {
    b * PTSIZE + b * PAGE_SIZE + 4 * i
  }

  // These addresses have the indices and offsets of the lemmas below.
  lemma WindowIndices(b: nat, va: Word, i: nat)
    requires b < 1024 && i < 1024
    ensures var la := VptAddress(b, va); PDX(la) == b && PTX(la) == PDX(va) && PGOFF(la) == 4 * PTX(va)
    ensures var la := VpdAddress(b, i); PDX(la) == b && PTX(la) == b && PGOFF(la) == 4 * i
  {
    PageSplit(va);
    PageAddress(b, PDX(va), 4 * PTX(va));
    assert VptAddress(b, va) == b * 0x40_0000 + PDX(va) * 4096 + 4 * PTX(va);
    PageAddress(b, b, 4 * i);
  }

  // vpt[N] is the page-table word that translates page N, wherever page N has a
  // table: N is page j of table i.
  lemma VptReachesEntry(mem: seq<Word>, d: nat, b: nat, i: nat, j: nat, t: nat)
    requires SelfMapped(mem, d, b) && i < 1024 && j < 1024
    requires Present(mem[Slot(d, i)]) && FrameOf(mem[Slot(d, i)]) == t && Slot(t, j) < |mem|
    ensures PageWalks(mem, d, b, i) && Reached(mem, d, b, i, 4 * j) == Slot(t, j)
    ensures PageWalks(mem, d, i, j)
    ensures Translate(mem, d, i, j) == if Present(mem[Slot(t, j)]) then ExtractAddress(mem[Slot(t, j)]) else NOT_MAPPED
  {
  }

  // vpd[i] is directory entry i.
  lemma VpdReachesEntry(mem: seq<Word>, d: nat, b: nat, i: nat)
    requires SelfMapped(mem, d, b) && i < 1024
    ensures PageWalks(mem, d, b, b) && Reached(mem, d, b, b, 4 * i) == Slot(d, i)
  {
  }

  // The two entries that setup_listing_to_all_page_tables_entries and
  // complete_environment_initialization write.
  function MapItself(mem: seq<Word>, d: nat): seq<Word>
    requires d < 0x10_0000 && d * 1024 + 1024 <= |mem|
  {
    mem[Slot(d, PDX(VPT)) := ConstructEntry(d, PERM_PRESENT + PERM_WRITEABLE)]
       [Slot(d, PDX(UVPT)) := ConstructEntry(d, PERM_PRESENT + PERM_USER)]
  }

  // So every directory that has them can be read through both windows.
  lemma MapItselfMaps(mem: seq<Word>, d: nat)
    requires d < 0x10_0000 && d * 1024 + 1024 <= |mem|
    ensures SelfMapped(MapItself(mem, d), d, PDX(VPT)) && SelfMapped(MapItself(mem, d), d, PDX(UVPT))
    ensures forall k: nat :: k < |mem| && !(k / 1024 == d && k % 1024 >= USER_PDES) ==> MapItself(mem, d)[k] == mem[k]
  {
  }

  // A page of such a window is the table (or the directory) that entry j names.
  // Through UVPT the user reads what entry j lets him use, and writes nothing;
  // through VPT he does nothing, and the kernel writes what entry j lets it write.
  lemma WindowAccess(mem: seq<Word>, d: nat, j: nat, e: Word)
    requires d < 0x10_0000 && d * 1024 + 1024 <= |mem| && j < 1024 && MapItself(mem, d)[Slot(d, j)] == e
    ensures var mem' := MapItself(mem, d);
      && PageWalks(mem', d, BootTables.SELF_UVPT, j) && PageWalks(mem', d, BootTables.SELF_VPT, j)
      && !UserMay(mem', d, BootTables.SELF_UVPT, j, PERM_WRITEABLE)
      && (UserMay(mem', d, BootTables.SELF_UVPT, j, PERM_PRESENT) <==> Present(e) && HasBit(e, PERM_USER))
      && !UserMay(mem', d, BootTables.SELF_VPT, j, PERM_PRESENT) && !UserMay(mem', d, BootTables.SELF_VPT, j, PERM_WRITEABLE)
      && (KernelMay(mem', d, BootTables.SELF_VPT, j, PERM_WRITEABLE) <==> Present(e) && HasBit(e, PERM_WRITEABLE))
      && !KernelMay(mem', d, BootTables.SELF_UVPT, j, PERM_WRITEABLE)
  {
    SelfEntries(d);
    PresentHasBit(e);
  }

  lemma SelfEntries(d: nat)
    requires d < 0x10_0000
    ensures PDX(VPT) == BootTables.SELF_VPT && PDX(UVPT) == BootTables.SELF_UVPT
    ensures var v := ConstructEntry(d, PERM_PRESENT + PERM_WRITEABLE);
      && Present(v) && HasBit(v, PERM_PRESENT) && HasBit(v, PERM_WRITEABLE) && !HasBit(v, PERM_USER)
    ensures var u := ConstructEntry(d, PERM_PRESENT + PERM_USER);
      && Present(u) && HasBit(u, PERM_PRESENT) && !HasBit(u, PERM_WRITEABLE) && HasBit(u, PERM_USER)
  {
  }

  lemma PresentHasBit(e: Word)
    ensures Present(e) <==> HasBit(e, PERM_PRESENT)
  {
  }

  // They are in the kernel half, where they touch no invariant and no user page.
  lemma MapItselfKeepsInv(s: State, r: Roots, d: nat)
    requires Inv(s, r) && d in r.dirs
    ensures d < 0x10_0000 && d * 1024 + 1024 <= |s.mem|
    ensures Inv(s.(mem := MapItself(s.mem, d)), r) && FlatMap.Flat(s.(mem := MapItself(s.mem, d)), r) == FlatMap.Flat(s, r)
  {
    MapItselfMaps(s.mem, d);
    forall k: nat | k < |s.mem| && IsSlot(s, r, k) ensures MapItself(s.mem, d)[k] == s.mem[k] {
      if k / 1024 in Tables(s, r) { TablesAreFrames(s, r, k / 1024); }
    }
    Runs.OtherMemoryKeepsInv(s, r, s.(mem := MapItself(s.mem, d)));
  }

  // The directory that initialize_kernel_VM builds holds itself at VPT and at UVPT.
  lemma BootIsSelfMapped(m: BootTables.Boot, d: nat, stack: Word, frames: Word, envs: Word)
    requires KernelVM.BootMapped(m, d, stack, frames, envs)
    ensures SelfMapped(m.mem, d, PDX(VPT)) && SelfMapped(m.mem, d, PDX(UVPT))
  {
    assert BootTables.TableOk(m, d, PDX(VPT)) && BootTables.TableOk(m, d, PDX(UVPT));
    KernelVM.TaggedIsPresent(d, PDX(VPT), BootTables.Entry(m.mem, d, PDX(VPT)));
    KernelVM.TaggedIsPresent(d, PDX(UVPT), BootTables.Entry(m.mem, d, PDX(UVPT)));
  }

  // In it, both windows lead to the word that translates page j of table i, for
  // every page that has a table t, and to every directory entry i.
  lemma BootWindows(m: BootTables.Boot, d: nat, stack: Word, frames: Word, envs: Word, b: nat, i: nat, j: nat, t: nat)
    requires KernelVM.BootMapped(m, d, stack, frames, envs) && (b == PDX(VPT) || b == PDX(UVPT))
    requires i < 1024 && j < 1024 && FrameOf(BootTables.Entry(m.mem, d, i)) == t
    ensures PageWalks(m.mem, d, b, b) && Reached(m.mem, d, b, b, 4 * i) == Slot(d, i)
    ensures t != 0 ==> PageWalks(m.mem, d, b, i) && Reached(m.mem, d, b, i, 4 * j) == Slot(t, j)
  {
    BootIsSelfMapped(m, d, stack, frames, envs);
    VpdReachesEntry(m.mem, d, b, i);
    assert BootTables.TableOk(m, d, i);
    if t != 0 {
      KernelVM.TaggedIsPresent(d, i, BootTables.Entry(m.mem, d, i));
      VptReachesEntry(m.mem, d, b, i, j, t);
    }
  }

  // The addresses that entry.S gives to vpt and vpd.
  lemma EntryAddresses(va: Word, i: nat)
    requires i < 1024
    ensures VptAddress(PDX(VPT), va) == VPT + 4 * PPN(va)
    ensures VptAddress(PDX(UVPT), va) == UVPT + 4 * PPN(va)
    ensures VpdAddress(PDX(VPT), i) == VPT + VPT / 1024 + 4 * i
    ensures VpdAddress(PDX(UVPT), i) == UVPT + UVPT / 4096 * 4 + 4 * i
  {
  }
}
