/**
 The boot loader (boot/main.c).  It reads whole sectors, more than a segment asks
 for, and it takes each program header from memory that the segments before it
 may have overwritten.
 */
module Loader {
  import opened Words

  const SECTSIZE: nat := 512
  const ELFHDR: nat := 0x1_0000  // where the first page of the image is read to
  const ELF_MAGIC: nat := 0x464C_457F
  const ELF_SIZE: nat := 52  // sizeof(struct Elf)
  const PH_SIZE: nat := 32  // sizeof(struct Proghdr)

  // The fields of a program header that the loader uses.
  datatype Segment = Segment(va: nat, memsz: nat, offset: nat)

  // The first page of the image.
  const PAGE: Segment := Segment(ELFHDR, 8 * SECTSIZE, 0)

  // va & 0xFFFFFF
  function Base(s: Segment): nat { s.va % 0x100_0000 }

  // The sectors written: [Lo, Hi).
  function Lo(s: Segment): nat { Base(s) - Base(s) % SECTSIZE }

  function Hi(s: Segment): (h: nat)
    ensures Lo(s) <= h && (h - Lo(s)) % SECTSIZE == 0
    ensures Base(s) + s.memsz <= h < Base(s) + s.memsz + SECTSIZE
  {
    Lo(s) + (Base(s) + s.memsz - Lo(s) + SECTSIZE - 1) / SECTSIZE * SECTSIZE
  }

  predicate Writes(s: Segment, a: nat) { Lo(s) <= a < Hi(s) }

  // The byte of the disk that ends up at address a of a segment's sectors; the
  // kernel image starts at sector 1.
  function Source(s: Segment, a: nat): int { (s.offset / SECTSIZE + 1) * SECTSIZE + (a - Lo(s)) }

  // The byte of the disk that belongs at byte k of a segment.
  function Wanted(s: Segment, k: nat): nat { SECTSIZE + s.offset + k }

  // The segment's sectors, if it has any, exist in memory and on the disk.
  predicate Fits(s: Segment, memory: nat, disk: nat) {
    Lo(s) == Hi(s) || (Hi(s) <= memory && (s.offset / SECTSIZE + 1) * SECTSIZE + (Hi(s) - Lo(s)) <= disk)
  }

  predicate AllFit(ss: seq<Segment>, memory: nat, disk: nat) {
    forall i :: 0 <= i < |ss| ==> Fits(ss[i], memory, disk)
  }

  // ----- the fields of the headers, little-endian

  function Word32(b: seq<Byte>, a: nat): Word
    requires a + 4 <= |b|
  {
    b[a] as int + 0x100 * b[a + 1] as int + 0x1_0000 * b[a + 2] as int + 0x100_0000 * b[a + 3] as int
  }

  function Half(b: seq<Byte>, a: nat): Count
    requires a + 2 <= |b|
  {
    b[a] as int + 0x100 * b[a + 1] as int
  }

  // p_va, p_memsz and p_offset of the program header at a
  function HeaderAt(b: seq<Byte>, a: nat): Segment
    requires a + PH_SIZE <= |b|
  {
    Segment(Word32(b, a + 8), Word32(b, a + 20), Word32(b, a + 4))
  }

  // The bytes of a program header that hold those fields.
  predicate IsField(f: nat) { 4 <= f < 12 || 20 <= f < 24 }

  // The bytes of e_entry that the mask of the jump leaves.
  predicate IsEntry(f: nat) { 24 <= f < 27 }

  // ----- as functions on memory

  function ReadSegment(mem: seq<Byte>, disk: seq<Byte>, s: Segment): (r: seq<Byte>)
    requires Fits(s, |mem|, |disk|)
    ensures |r| == |mem|
  {
    seq(|mem|, a requires 0 <= a < |mem| => if Writes(s, a) then disk[Source(s, a)] else mem[a])
  }

  // Reading the given segments in order.
  function Load(mem: seq<Byte>, disk: seq<Byte>, ss: seq<Segment>): (r: seq<Byte>)
    requires AllFit(ss, |mem|, |disk|)
    ensures |r| == |mem|
    decreases |ss|
  {
    if ss == [] then mem
    else
      assert forall i :: 0 <= i < |ss| - 1 ==> ss[..|ss| - 1][i] == ss[i];
      ReadSegment(Load(mem, disk, ss[..|ss| - 1]), disk, ss[|ss| - 1])
  }

  // The loop over n program headers at ph.  Each is taken from memory as the
  // segments before it have left it.  ok: the loop stays inside memory and disk.
  datatype Reads = Reads(ok: bool, calls: seq<Segment>, mem: seq<Byte>)

  // One turn of the loop, with header i.
  function NextRead(r: Reads, disk: seq<Byte>, ph: nat, i: nat): (r': Reads)
    ensures |r'.mem| == |r.mem|
  {
    if !r.ok || ph + PH_SIZE * i + PH_SIZE > |r.mem| || !Fits(HeaderAt(r.mem, ph + PH_SIZE * i), |r.mem|, |disk|) then
      Reads(false, r.calls, r.mem)
    else
      var s := HeaderAt(r.mem, ph + PH_SIZE * i);
      Reads(true, r.calls + [s], ReadSegment(r.mem, disk, s))
  }

  function ReadTable(mem: seq<Byte>, disk: seq<Byte>, ph: nat, n: nat): (r: Reads)
    ensures |r.mem| == |mem| && |r.calls| <= n && (r.ok ==> |r.calls| == n)
  {
    if n == 0 then Reads(true, [], mem) else NextRead(ReadTable(mem, disk, ph, n - 1), disk, ph, n - 1)
  }

  // Jumped: to the kernel's entry point, after these calls of readseg.
  // Rejected: not an ELF image.  Beyond: outside memory or disk.
  datatype Outcome = Jumped(entry: nat, calls: seq<Segment>) | Rejected | Beyond

  // The address of the program headers; the addition wraps.
  function TableAddress(elf: seq<Byte>, a: nat): Word
    requires a + ELF_SIZE <= |elf|
  {
    (ELFHDR + Word32(elf, a + 28)) % TWO32
  }

  // How often the loop runs: ph < eph fails at once when eph wraps.
  function Rounds(ph: Word, n: nat): nat { if ph + PH_SIZE * n < TWO32 then n else 0 }

  predicate RoomForPage(memory: nat, disk: nat) { ELFHDR + 8 * SECTSIZE <= memory && 9 * SECTSIZE <= disk }

  function FirstPage(mem: seq<Byte>, disk: seq<Byte>): (m: seq<Byte>)
    requires RoomForPage(|mem|, |disk|)
    ensures |m| == |mem|
  {
    ReadSegment(mem, disk, PAGE)
  }

  function Booted(mem: seq<Byte>, disk: seq<Byte>): (Outcome, seq<Byte>)
    requires RoomForPage(|mem|, |disk|)
  {
    var m := FirstPage(mem, disk);
    if Word32(m, ELFHDR) != ELF_MAGIC then (Rejected, m)
    else
      var ph := TableAddress(m, ELFHDR);
      var r := ReadTable(m, disk, ph, Rounds(ph, Half(m, ELFHDR + 44)));
      (if r.ok then Jumped(Word32(r.mem, ELFHDR + 24) % 0x100_0000, r.calls) else Beyond, r.mem)
  }

  // A disk without the ELF magic in front of the image is rejected, and no other;
  // then the first page is all that was read.
  lemma RejectsIff(mem: seq<Byte>, disk: seq<Byte>, a: nat)
    requires RoomForPage(|mem|, |disk|) && a < |mem|
    ensures Booted(mem, disk).0 == Rejected <==>
      !(disk[512] == 0x7F && disk[513] == 'E' as int && disk[514] == 'L' as int && disk[515] == 'F' as int)
    ensures Booted(mem, disk).0 == Rejected ==>
      |Booted(mem, disk).1| == |mem|
      && Booted(mem, disk).1[a] == if 0x1_0000 <= a < 0x1_1000 then disk[512 + (a - 0x1_0000)] else mem[a]
  {
    var m := FirstPage(mem, disk);
    assert m[ELFHDR] == disk[512] && m[ELFHDR + 1] == disk[513] && m[ELFHDR + 2] == disk[514] && m[ELFHDR + 3] == disk[515];
    MagicBytes(m, ELFHDR);
  }

  // When the end of the table wraps past 2^32 the loop does not run: the loader jumps
  // into an image of which it has read one page.
  lemma WrappedTableIsSkipped(mem: seq<Byte>, disk: seq<Byte>)
    requires IsImage(disk) && RoomForPage(|mem|, |disk|) && TableAddress(disk, SECTSIZE) + 32 * |Table(disk)| >= TWO32
    ensures Booted(mem, disk) == (Jumped(Word32(disk, SECTSIZE + 24) % 0x100_0000, []), FirstPage(mem, disk))
  {
    PageHoldsHeader(mem, disk);
    PageHoldsEntry(mem, disk);
    var m := FirstPage(mem, disk);
    assert ReadTable(m, disk, TableAddress(m, ELFHDR), 0) == Reads(true, [], m);
  }

  lemma PageHoldsEntry(mem: seq<Byte>, disk: seq<Byte>)
    requires RoomForPage(|mem|, |disk|)
    ensures Word32(FirstPage(mem, disk), ELFHDR + 24) == Word32(disk, SECTSIZE + 24)
  {
    var m := FirstPage(mem, disk);
    assert m[ELFHDR + 24] == disk[SECTSIZE + 24] && m[ELFHDR + 25] == disk[SECTSIZE + 25];
    assert m[ELFHDR + 26] == disk[SECTSIZE + 26] && m[ELFHDR + 27] == disk[SECTSIZE + 27];
    SameWord(m, ELFHDR + 24, disk, SECTSIZE + 24);
  }

  lemma MagicBytes(b: seq<Byte>, a: nat)
    requires a + 4 <= |b|
    ensures Word32(b, a) == ELF_MAGIC <==>
      b[a] == 0x7F && b[a + 1] == 'E' as int && b[a + 2] == 'L' as int && b[a + 3] == 'F' as int
  {
    SameDigits(b[a], 0x7F, b[a + 1] as int + 0x100 * b[a + 2] as int + 0x1_0000 * b[a + 3] as int, 0x46_4C45);
    SameDigits(b[a + 1], 0x45, b[a + 2] as int + 0x100 * b[a + 3] as int, 0x464C);
    SameDigits(b[a + 2], 0x4C, b[a + 3], 0x46);
  }

  // ----- where a byte of memory comes from

  // The last segment that writes address a, -1 if none does.
  function LastWriter(ss: seq<Segment>, a: nat): (i: int)
    ensures -1 <= i < |ss|
    ensures i >= 0 ==> Writes(ss[i], a)
    ensures forall j :: i < j < |ss| ==> !Writes(ss[j], a)
    decreases |ss|
  {
    if ss == [] then -1
    else if Writes(ss[|ss| - 1], a) then |ss| - 1
    else LastWriter(ss[..|ss| - 1], a)
  }

  // Memory after the loop holds, at each address, what its last writer put there.
  lemma {:induction false} LoadedByLastWriter(mem: seq<Byte>, disk: seq<Byte>, ss: seq<Segment>, a: nat)
    requires AllFit(ss, |mem|, |disk|) && a < |mem|
    ensures var i := LastWriter(ss, a);
      && (i >= 0 ==> 0 <= Source(ss[i], a) < |disk|)
      && Load(mem, disk, ss)[a] == if i < 0 then mem[a] else disk[Source(ss[i], a)]
    decreases |ss|
  {
    if ss != [] {
      var rest := ss[..|ss| - 1];
      assert AllFit(rest, |mem|, |disk|);
      LoadedByLastWriter(mem, disk, rest, a);
      assert Fits(ss[|ss| - 1], |mem|, |disk|);
    }
  }

  // ----- images

  // The disk holds an ELF image with its table of program headers.
  predicate IsImage(disk: seq<Byte>) {
    && 9 * SECTSIZE <= |disk|
    && Word32(disk, SECTSIZE) == ELF_MAGIC
    && TableOffset(disk) + PH_SIZE * Half(disk, SECTSIZE + 44) <= |disk|
  }

  // The place of the table on the disk.
  function TableOffset(disk: seq<Byte>): nat
    requires 9 * SECTSIZE <= |disk|
  {
    SECTSIZE + Word32(disk, SECTSIZE + 28)
  }

  // The segments that the image names.
  function Table(disk: seq<Byte>): (ss: seq<Segment>)
    requires IsImage(disk)
    ensures |ss| == Half(disk, SECTSIZE + 44)
  {
    seq(Half(disk, SECTSIZE + 44), i requires 0 <= i < Half(disk, SECTSIZE + 44) =>
      HeaderAt(disk, TableOffset(disk) + PH_SIZE * i))
  }

  // Every byte of every segment holds the image byte it should.
  ghost predicate Loaded(mem: seq<Byte>, disk: seq<Byte>, ss: seq<Segment>) {
    forall j, k :: 0 <= j < |ss| && 0 <= k < ss[j].memsz ==> Right(mem, disk, ss[j], k)
  }

  ghost predicate Right(mem: seq<Byte>, disk: seq<Byte>, s: Segment, k: nat) {
    Base(s) + k < |mem| && Wanted(s, k) < |disk| && mem[Base(s) + k] == disk[Wanted(s, k)]
  }

  // What a boot loader is for: it reads the segments that the image names, each
  // byte of them is in its place, and it jumps to the image's entry point.
  ghost predicate Boots(mem: seq<Byte>, disk: seq<Byte>)
    requires IsImage(disk) && RoomForPage(|mem|, |disk|)
  {
    && Booted(mem, disk).0 == Jumped(Word32(disk, SECTSIZE + 24) % 0x100_0000, Table(disk))
    && Loaded(Booted(mem, disk).1, disk, Table(disk))
  }

  // A byte of the ELF header or of the program headers.
  predicate IsHeaderByte(disk: seq<Byte>, p: nat)
    requires IsImage(disk)
  {
    || SECTSIZE <= p < SECTSIZE + ELF_SIZE
    || TableOffset(disk) <= p < TableOffset(disk) + PH_SIZE * |Table(disk)|
  }

  // Two images with the same headers.
  ghost predicate SameHeaders(disk: seq<Byte>, disk': seq<Byte>)
    requires IsImage(disk)
  {
    |disk'| == |disk| && forall p: nat :: p < |disk| && IsHeaderByte(disk, p) ==> disk'[p] == disk[p]
  }

  lemma SameTable(disk: seq<Byte>, disk': seq<Byte>)
    requires IsImage(disk) && SameHeaders(disk, disk')
    ensures IsImage(disk') && Table(disk') == Table(disk) && TableOffset(disk') == TableOffset(disk)
    ensures TableAddress(disk', SECTSIZE) == TableAddress(disk, SECTSIZE)
    ensures Word32(disk', SECTSIZE + 24) == Word32(disk, SECTSIZE + 24)
  {
    assert forall p: nat :: SECTSIZE <= p < SECTSIZE + ELF_SIZE ==> IsHeaderByte(disk, p);
    forall i | 0 <= i < |Table(disk)|
      ensures HeaderAt(disk', TableOffset(disk) + PH_SIZE * i) == HeaderAt(disk, TableOffset(disk) + PH_SIZE * i)
    {
      var a := TableOffset(disk) + PH_SIZE * i;
      assert forall p: nat :: a <= p < a + PH_SIZE ==> IsHeaderByte(disk, p);
    }
  }

  // ----- the exact condition

  // After loading ss, address a holds byte w of the disk, whatever the image has
  // besides its headers.
  ghost predicate Settled(mem: seq<Byte>, disk: seq<Byte>, ss: seq<Segment>, a: nat, w: nat)
    requires IsImage(disk) && AllFit(ss, |mem|, |disk|)
  {
    && a < |mem| && w < |disk|
    && var i := LastWriter(ss, a);
       if i < 0 then IsHeaderByte(disk, w) && mem[a] == disk[w]
       else
         var p := Source(ss[i], a);
         && 0 <= p < |disk|
         && (p == w || (IsHeaderByte(disk, p) && IsHeaderByte(disk, w) && disk[p] == disk[w]))
  }

  // Another image that differs in byte p alone.
  function Flipped(disk: seq<Byte>, p: nat): (r: seq<Byte>)
    requires p < |disk|
    ensures |r| == |disk| && r[p] != disk[p] && forall q :: 0 <= q < |disk| && q != p ==> r[q] == disk[q]
  {
    disk[p := if disk[p] == 0 then 1 else 0]
  }

  lemma SettledIff(mem: seq<Byte>, disk: seq<Byte>, ss: seq<Segment>, a: nat, w: nat)
    requires IsImage(disk) && AllFit(ss, |mem|, |disk|) && a < |mem| && w < |disk|
    ensures (forall disk': seq<Byte> :: SameHeaders(disk, disk') ==> Load(mem, disk', ss)[a] == disk'[w])
      <==> Settled(mem, disk, ss, a, w)
  {
    var i := LastWriter(ss, a);
    LoadedByLastWriter(mem, disk, ss, a);
    if Settled(mem, disk, ss, a, w) {
      forall disk': seq<Byte> | SameHeaders(disk, disk') ensures Load(mem, disk', ss)[a] == disk'[w] {
        LoadedByLastWriter(mem, disk', ss, a);
      }
    } else if SameHeaders(disk, disk) && Load(mem, disk, ss)[a] == disk[w] {
      var p := if IsHeaderByte(disk, w) then Source(ss[i], a) else w;
      assert SameHeaders(disk, Flipped(disk, p));
      LoadedByLastWriter(mem, Flipped(disk, p), ss, a);
    }
  }

  // ----- the loop reads the table of the image

  // n program headers at ph lie in memory.
  predicate TableFits(ph: nat, n: nat, memory: nat) { n == 0 || ph + PH_SIZE * n <= memory }

  // Memory when the loop takes header i: the first page and i segments are read.
  ghost function Stage(mem: seq<Byte>, disk: seq<Byte>, ss: seq<Segment>, i: nat): (m: seq<Byte>)
    requires i <= |ss| && AllFit([PAGE] + ss, |mem|, |disk|)
    ensures |m| == |mem|
  {
    StagesFit(ss, i, |mem|, |disk|);
    Load(mem, disk, [PAGE] + ss[..i])
  }

  lemma StagesFit(ss: seq<Segment>, i: nat, memory: nat, disk: nat)
    requires i <= |ss| && AllFit([PAGE] + ss, memory, disk)
    ensures AllFit([PAGE] + ss[..i], memory, disk)
  {
    forall j | 0 <= j < i + 1 ensures Fits(([PAGE] + ss[..i])[j], memory, disk) {
      assert ([PAGE] + ss[..i])[j] == ([PAGE] + ss)[j];
    }
  }

  lemma StageNext(mem: seq<Byte>, disk: seq<Byte>, ss: seq<Segment>, i: nat)
    requires i < |ss| && AllFit([PAGE] + ss, |mem|, |disk|)
    ensures Fits(ss[i], |mem|, |disk|)
    ensures Stage(mem, disk, ss, i + 1) == ReadSegment(Stage(mem, disk, ss, i), disk, ss[i])
  {
    StagesFit(ss, i, |mem|, |disk|);
    StagesFit(ss, i + 1, |mem|, |disk|);
    assert Fits(([PAGE] + ss)[i + 1], |mem|, |disk|);
    var all := [PAGE] + ss[..i + 1];
    assert all[..|all| - 1] == [PAGE] + ss[..i] && all[|all| - 1] == ss[i];
  }

  lemma StageZero(mem: seq<Byte>, disk: seq<Byte>, ss: seq<Segment>)
    requires AllFit([PAGE] + ss, |mem|, |disk|) && RoomForPage(|mem|, |disk|)
    ensures Stage(mem, disk, ss, 0) == FirstPage(mem, disk)
  {
    assert [PAGE] + ss[..0] == [PAGE] && [PAGE][..0] == [];
    assert Load(mem, disk, []) == mem;
  }

  // Header i, where the loop takes it, has the fields of ss[i].
  ghost predicate HeaderIntact(mem: seq<Byte>, disk: seq<Byte>, ss: seq<Segment>, ph: nat, i: nat)
    requires i < |ss| && AllFit([PAGE] + ss, |mem|, |disk|) && TableFits(ph, |ss|, |mem|)
  {
    HeaderAt(Stage(mem, disk, ss, i), ph + PH_SIZE * i) == ss[i]
  }

  ghost predicate HeadersIntact(mem: seq<Byte>, disk: seq<Byte>, ss: seq<Segment>, ph: nat, n: nat)
    requires n <= |ss| && AllFit([PAGE] + ss, |mem|, |disk|) && TableFits(ph, |ss|, |mem|)
  {
    forall i :: 0 <= i < n ==> HeaderIntact(mem, disk, ss, ph, i)
  }

  lemma OneMoreHeader(mem: seq<Byte>, disk: seq<Byte>, ss: seq<Segment>, ph: nat, n: nat)
    requires 0 < n <= |ss| && AllFit([PAGE] + ss, |mem|, |disk|) && TableFits(ph, |ss|, |mem|)
    ensures HeadersIntact(mem, disk, ss, ph, n) <==>
      HeadersIntact(mem, disk, ss, ph, n - 1) && HeaderIntact(mem, disk, ss, ph, n - 1)
  {
  }

  ghost predicate CallsAre(r: Reads, ss: seq<Segment>, n: nat)
    requires n <= |ss|
  {
    r.ok && r.calls == ss[..n]
  }

  ghost predicate AtStage(mem: seq<Byte>, disk: seq<Byte>, r: Reads, ss: seq<Segment>, n: nat)
    requires n <= |ss| && AllFit([PAGE] + ss, |mem|, |disk|)
  {
    CallsAre(r, ss, n) ==> r.mem == Stage(mem, disk, ss, n)
  }

  // After n turns the loop has made the calls ss[..n], unless a header was spoilt.
  ghost predicate Follows(mem: seq<Byte>, disk: seq<Byte>, r: Reads, ph: nat, ss: seq<Segment>, n: nat)
    requires n <= |ss| && AllFit([PAGE] + ss, |mem|, |disk|) && TableFits(ph, |ss|, |mem|)
  {
    (CallsAre(r, ss, n) <==> HeadersIntact(mem, disk, ss, ph, n)) && AtStage(mem, disk, r, ss, n)
  }

  lemma {:induction false} ReadTableFollows(mem: seq<Byte>, disk: seq<Byte>, m: seq<Byte>, ph: nat, ss: seq<Segment>, n: nat)
    requires AllFit([PAGE] + ss, |mem|, |disk|) && |m| == |mem| && Stage(mem, disk, ss, 0) == m
    requires n <= |ss| && TableFits(ph, |ss|, |mem|)
    ensures Follows(mem, disk, ReadTable(m, disk, ph, n), ph, ss, n)
    decreases n
  {
    if n > 0 {
      var r := ReadTable(m, disk, ph, n - 1);
      ReadTableFollows(mem, disk, m, ph, ss, n - 1);
      OneMoreCall(mem, disk, ph, ss, n - 1, r);
      assert ReadTable(m, disk, ph, n) == NextRead(r, disk, ph, n - 1);
    } else {
      assert ReadTable(m, disk, ph, 0) == Reads(true, [], m);
    }
  }

  // The loop makes the calls ss exactly if each header is intact when its turn comes.
  lemma ReadTableIff(mem: seq<Byte>, disk: seq<Byte>, m: seq<Byte>, ph: nat, ss: seq<Segment>, n: nat)
    requires AllFit([PAGE] + ss, |mem|, |disk|) && |m| == |mem| && Stage(mem, disk, ss, 0) == m
    requires n <= |ss| && TableFits(ph, |ss|, |mem|)
    ensures CallsAre(ReadTable(m, disk, ph, n), ss, n) <==> HeadersIntact(mem, disk, ss, ph, n)
    ensures AtStage(mem, disk, ReadTable(m, disk, ph, n), ss, n)
  {
    ReadTableFollows(mem, disk, m, ph, ss, n);
  }

  lemma NextCalls(r: Reads, disk: seq<Byte>, ph: nat, ss: seq<Segment>, i: nat)
    requires i < |ss| && |r.calls| <= i && ph + PH_SIZE * i + PH_SIZE <= |r.mem| && Fits(ss[i], |r.mem|, |disk|)
    ensures var r' := NextRead(r, disk, ph, i);
      && (CallsAre(r', ss, i + 1) <==> CallsAre(r, ss, i) && HeaderAt(r.mem, ph + PH_SIZE * i) == ss[i])
      && (CallsAre(r', ss, i + 1) ==> r'.mem == ReadSegment(r.mem, disk, ss[i]))
  {
    var r' := NextRead(r, disk, ph, i);
    assert ss[..i + 1] == ss[..i] + [ss[i]];
    if r'.ok {
      assert r'.calls == r.calls + [HeaderAt(r.mem, ph + PH_SIZE * i)];
      assert |r.calls| == i ==> r'.calls[..i] == r.calls;
    }
  }

  lemma OneMoreCall(mem: seq<Byte>, disk: seq<Byte>, ph: nat, ss: seq<Segment>, i: nat, r: Reads)
    requires AllFit([PAGE] + ss, |mem|, |disk|) && i < |ss| && TableFits(ph, |ss|, |mem|)
    requires |r.mem| == |mem| && |r.calls| <= i && Follows(mem, disk, r, ph, ss, i)
    ensures Follows(mem, disk, NextRead(r, disk, ph, i), ph, ss, i + 1)
  {
    StageNext(mem, disk, ss, i);
    OneMoreHeader(mem, disk, ss, ph, i + 1);
    NextCalls(r, disk, ph, ss, i);
  }

  // Calls that the loop makes fit.
  lemma {:induction false} ReadTableFits(mem: seq<Byte>, disk: seq<Byte>, ph: nat, n: nat)
    ensures var r := ReadTable(mem, disk, ph, n);
      AllFit(r.calls, |mem|, |disk|) && (r.ok ==> TableFits(ph, n, |mem|))
  {
    if n > 0 { ReadTableFits(mem, disk, ph, n - 1); }
  }

  // ----- fields and their bytes

  lemma SameDigits(x: Byte, x': Byte, h: nat, h': nat)
    ensures x as int + 0x100 * h == x' as int + 0x100 * h' <==> x == x' && h == h'
  {
  }

  lemma SameWord(b: seq<Byte>, a: nat, b': seq<Byte>, a': nat)
    requires a + 4 <= |b| && a' + 4 <= |b'|
    ensures Word32(b, a) == Word32(b', a') <==>
      b[a] == b'[a'] && b[a + 1] == b'[a' + 1] && b[a + 2] == b'[a' + 2] && b[a + 3] == b'[a' + 3]
    ensures Word32(b, a) % 0x100_0000 == Word32(b', a') % 0x100_0000 <==>
      b[a] == b'[a'] && b[a + 1] == b'[a' + 1] && b[a + 2] == b'[a' + 2]
  {
    var x, x': nat := b[a + 2], b'[a' + 2];
    var y, y' := b[a + 1] as int + 0x100 * x, b'[a' + 1] as int + 0x100 * x';
    SameDigits(b[a + 1], b'[a' + 1], x, x');
    SameDigits(b[a], b'[a'], y, y');
    var z, z' := b[a + 1] as int + 0x100 * (x + 0x100 * b[a + 3] as int), b'[a' + 1] as int + 0x100 * (x' + 0x100 * b'[a' + 3] as int);
    SameDigits(b[a + 2], b'[a' + 2], b[a + 3], b'[a' + 3]);
    SameDigits(b[a + 1], b'[a' + 1], x + 0x100 * b[a + 3] as int, x' + 0x100 * b'[a' + 3] as int);
    SameDigits(b[a], b'[a'], z, z');
    LowBytes(b, a);
    LowBytes(b', a');
  }

  lemma LowBytes(b: seq<Byte>, a: nat)
    requires a + 4 <= |b|
    ensures Word32(b, a) % 0x100_0000 == b[a] as int + 0x100 * (b[a + 1] as int + 0x100 * b[a + 2] as int)
    ensures Word32(b, a) == b[a] as int + 0x100 * (b[a + 1] as int + 0x100 * (b[a + 2] as int + 0x100 * b[a + 3] as int))
  {
  }

  lemma SameHeader(b: seq<Byte>, a: nat, b': seq<Byte>, a': nat)
    requires a + PH_SIZE <= |b| && a' + PH_SIZE <= |b'|
    ensures HeaderAt(b, a) == HeaderAt(b', a') <==> forall f :: IsField(f) ==> b[a + f] == b'[a' + f]
  {
    SameWord(b, a + 4, b', a' + 4);
    SameWord(b, a + 8, b', a' + 8);
    SameWord(b, a + 20, b', a' + 20);
    if forall f :: IsField(f) ==> b[a + f] == b'[a' + f] {
      assert IsField(4) && IsField(5) && IsField(6) && IsField(7);
      assert IsField(8) && IsField(9) && IsField(10) && IsField(11);
      assert IsField(20) && IsField(21) && IsField(22) && IsField(23);
    } else {
      var f: nat :| IsField(f) && b[a + f] != b'[a' + f];
      assert f == 4 || f == 5 || f == 6 || f == 7 || f == 8 || f == 9 || f == 10 || f == 11
        || f == 20 || f == 21 || f == 22 || f == 23;
    }
  }

  // ----- one image

  // The segments fit, and the loop takes the headers from memory that exists.
  predicate Fitting(memory: nat, disk: seq<Byte>)
    requires IsImage(disk)
  {
    && AllFit([PAGE] + Table(disk), memory, |disk|)
    && TableFits(TableAddress(disk, SECTSIZE), |Table(disk)|, memory)
  }

  // The fields of header i are those of the image when the loop takes it.
  ghost predicate FieldsKept(mem: seq<Byte>, disk: seq<Byte>, i: nat)
    requires IsImage(disk) && Fitting(|mem|, disk) && i < |Table(disk)|
  {
    var a, w := TableAddress(disk, SECTSIZE) + PH_SIZE * i, TableOffset(disk) + PH_SIZE * i;
    forall f :: IsField(f) ==> Stage(mem, disk, Table(disk), i)[a + f] == disk[w + f]
  }

  // The bytes of the entry point that matter.
  ghost predicate EntryKept(mem: seq<Byte>, disk: seq<Byte>)
    requires IsImage(disk) && RoomForPage(|mem|, |disk|)
  {
    forall f :: IsEntry(f) ==> mem[ELFHDR + f] == disk[SECTSIZE + f]
  }

  lemma PageHoldsHeader(mem: seq<Byte>, disk: seq<Byte>)
    requires IsImage(disk) && RoomForPage(|mem|, |disk|)
    ensures var m := FirstPage(mem, disk);
      && Word32(m, ELFHDR) == ELF_MAGIC && Half(m, ELFHDR + 44) == |Table(disk)|
      && TableAddress(m, ELFHDR) == TableAddress(disk, SECTSIZE)
  {
    var m := FirstPage(mem, disk);
    assert m[ELFHDR] == disk[SECTSIZE] && m[ELFHDR + 1] == disk[SECTSIZE + 1];
    assert m[ELFHDR + 2] == disk[SECTSIZE + 2] && m[ELFHDR + 3] == disk[SECTSIZE + 3];
    SameWord(m, ELFHDR, disk, SECTSIZE);
    assert m[ELFHDR + 28] == disk[SECTSIZE + 28] && m[ELFHDR + 29] == disk[SECTSIZE + 29];
    assert m[ELFHDR + 30] == disk[SECTSIZE + 30] && m[ELFHDR + 31] == disk[SECTSIZE + 31];
    SameWord(m, ELFHDR + 28, disk, SECTSIZE + 28);
    assert m[ELFHDR + 44] == disk[SECTSIZE + 44] && m[ELFHDR + 45] == disk[SECTSIZE + 45];
  }

  lemma FieldsKeptIff(mem: seq<Byte>, disk: seq<Byte>, i: nat)
    requires IsImage(disk) && Fitting(|mem|, disk) && i < |Table(disk)|
    ensures FieldsKept(mem, disk, i) <==> HeaderIntact(mem, disk, Table(disk), TableAddress(disk, SECTSIZE), i)
  {
    var a, w := TableAddress(disk, SECTSIZE) + PH_SIZE * i, TableOffset(disk) + PH_SIZE * i;
    SameHeader(Stage(mem, disk, Table(disk), i), a, disk, w);
  }

  // An image that does not fit does not boot.
  lemma BootsFits(mem: seq<Byte>, disk: seq<Byte>)
    requires IsImage(disk) && RoomForPage(|mem|, |disk|) && |mem| < TWO32 && Boots(mem, disk)
    ensures Fitting(|mem|, disk)
  {
    PageHoldsHeader(mem, disk);
    var ph, n := TableAddress(disk, SECTSIZE), |Table(disk)|;
    var r := ReadTable(FirstPage(mem, disk), disk, ph, Rounds(ph, n));
    ReadTableFits(FirstPage(mem, disk), disk, ph, Rounds(ph, n));
    assert r.calls == Table(disk) && Rounds(ph, n) == n;
    PageFirst(r.calls, |mem|, |disk|);
  }

  lemma PageFirst(ss: seq<Segment>, memory: nat, disk: nat)
    requires AllFit(ss, memory, disk) && RoomForPage(memory, disk)
    ensures AllFit([PAGE] + ss, memory, disk)
  {
  }

  // An image boots exactly if it fits and its headers, its entry point and its segments are kept.
  lemma BootsIff(mem: seq<Byte>, disk: seq<Byte>)
    requires IsImage(disk) && RoomForPage(|mem|, |disk|) && |mem| < TWO32 && Fitting(|mem|, disk)
    ensures Boots(mem, disk) <==> Kept(mem, disk)
  {
    PageHoldsHeader(mem, disk);
    var ph, ss := TableAddress(disk, SECTSIZE), Table(disk);
    StageZero(mem, disk, ss);
    ReadTableIff(mem, disk, FirstPage(mem, disk), ph, ss, |ss|);
    assert ss[..|ss|] == ss && Rounds(ph, |ss|) == |ss|;
    forall i | 0 <= i < |ss|
      ensures FieldsKept(mem, disk, i) <==> HeaderIntact(mem, disk, ss, ph, i)
    {
      FieldsKeptIff(mem, disk, i);
    }
    EntryKeptIff(Stage(mem, disk, ss, |ss|), disk);
  }

  lemma EntryKeptIff(mem: seq<Byte>, disk: seq<Byte>)
    requires IsImage(disk) && RoomForPage(|mem|, |disk|)
    ensures EntryKept(mem, disk) <==>
      Word32(mem, ELFHDR + 24) % 0x100_0000 == Word32(disk, SECTSIZE + 24) % 0x100_0000
  {
    SameWord(mem, ELFHDR + 24, disk, SECTSIZE + 24);
    assert IsEntry(24) && IsEntry(25) && IsEntry(26);
  }

  ghost predicate Kept(mem: seq<Byte>, disk: seq<Byte>)
    requires IsImage(disk) && RoomForPage(|mem|, |disk|) && Fitting(|mem|, disk)
  {
    && (forall i :: 0 <= i < |Table(disk)| ==> FieldsKept(mem, disk, i))
    && EntryKept(Stage(mem, disk, Table(disk), |Table(disk)|), disk)
    && Loaded(Stage(mem, disk, Table(disk), |Table(disk)|), disk, Table(disk))
  }

  // ----- every image with the same headers

  ghost predicate HeadersSettled(mem: seq<Byte>, disk: seq<Byte>)
    requires IsImage(disk) && Fitting(|mem|, disk)
  {
    forall i :: 0 <= i < |Table(disk)| ==> HeaderSettled(mem, disk, i)
  }

  // Nothing that the first page and i segments put into memory changes header i.
  ghost predicate HeaderSettled(mem: seq<Byte>, disk: seq<Byte>, i: nat)
    requires IsImage(disk) && Fitting(|mem|, disk) && i < |Table(disk)|
  {
    StagesFit(Table(disk), i, |mem|, |disk|);
    forall f :: IsField(f) ==>
      Settled(mem, disk, [PAGE] + Table(disk)[..i],
              TableAddress(disk, SECTSIZE) + PH_SIZE * i + f, TableOffset(disk) + PH_SIZE * i + f)
  }

  ghost predicate EntrySettled(mem: seq<Byte>, disk: seq<Byte>)
    requires IsImage(disk) && Fitting(|mem|, disk)
  {
    forall f :: IsEntry(f) ==> Settled(mem, disk, [PAGE] + Table(disk), ELFHDR + f, SECTSIZE + f)
  }

  ghost predicate SegmentsSettled(mem: seq<Byte>, disk: seq<Byte>)
    requires IsImage(disk) && Fitting(|mem|, disk)
  {
    forall j, k :: 0 <= j < |Table(disk)| && 0 <= k < Table(disk)[j].memsz ==> ByteSettled(mem, disk, j, k)
  }

  ghost predicate ByteSettled(mem: seq<Byte>, disk: seq<Byte>, j: nat, k: nat)
    requires IsImage(disk) && Fitting(|mem|, disk) && j < |Table(disk)|
  {
    Settled(mem, disk, [PAGE] + Table(disk), Base(Table(disk)[j]) + k, Wanted(Table(disk)[j], k))
  }

  // The condition on the headers under which the loader is right.
  ghost predicate Sound(mem: seq<Byte>, disk: seq<Byte>)
    requires IsImage(disk)
  {
    Fitting(|mem|, disk) && HeadersSettled(mem, disk) && EntrySettled(mem, disk) && SegmentsSettled(mem, disk)
  }

  lemma AllStages(ss: seq<Segment>)
    ensures [PAGE] + ss[..|ss|] == [PAGE] + ss
  {
    assert ss[..|ss|] == ss;
  }

  lemma SoundKeeps(mem: seq<Byte>, disk: seq<Byte>, disk': seq<Byte>)
    requires IsImage(disk) && RoomForPage(|mem|, |disk|) && Sound(mem, disk) && SameHeaders(disk, disk')
    ensures IsImage(disk') && Fitting(|mem|, disk') && Kept(mem, disk')
  {
    SameTable(disk, disk');
    forall i | 0 <= i < |Table(disk)| ensures FieldsKept(mem, disk', i) {
      SoundHeader(mem, disk, disk', i);
    }
    SoundEntry(mem, disk, disk');
    forall j, k | 0 <= j < |Table(disk)| && 0 <= k < Table(disk)[j].memsz
      ensures Right(Stage(mem, disk', Table(disk), |Table(disk)|), disk', Table(disk)[j], k)
    {
      SoundByte(mem, disk, disk', j, k);
    }
  }

  lemma SoundHeader(mem: seq<Byte>, disk: seq<Byte>, disk': seq<Byte>, i: nat)
    requires IsImage(disk) && Fitting(|mem|, disk) && SameHeaders(disk, disk')
    requires i < |Table(disk)| && HeaderSettled(mem, disk, i)
    ensures IsImage(disk') && Fitting(|mem|, disk') && i < |Table(disk')| && FieldsKept(mem, disk', i)
  {
    SameTable(disk, disk');
    var ss := Table(disk);
    StagesFit(ss, i, |mem|, |disk|);
    var a, w := TableAddress(disk, SECTSIZE) + PH_SIZE * i, TableOffset(disk) + PH_SIZE * i;
    forall f: nat | IsField(f) ensures Stage(mem, disk', ss, i)[a + f] == disk'[w + f] {
      SettledIff(mem, disk, [PAGE] + ss[..i], a + f, w + f);
    }
  }

  lemma SoundEntry(mem: seq<Byte>, disk: seq<Byte>, disk': seq<Byte>)
    requires IsImage(disk) && RoomForPage(|mem|, |disk|) && Fitting(|mem|, disk) && SameHeaders(disk, disk')
    requires EntrySettled(mem, disk)
    ensures IsImage(disk') && EntryKept(Stage(mem, disk', Table(disk), |Table(disk)|), disk')
  {
    SameTable(disk, disk');
    var ss := Table(disk);
    AllStages(ss);
    forall f: nat | IsEntry(f)
      ensures Stage(mem, disk', ss, |ss|)[ELFHDR + f] == disk'[SECTSIZE + f]
    {
      SettledIff(mem, disk, [PAGE] + ss, ELFHDR + f, SECTSIZE + f);
    }
  }

  lemma SoundByte(mem: seq<Byte>, disk: seq<Byte>, disk': seq<Byte>, j: nat, k: nat)
    requires IsImage(disk) && Fitting(|mem|, disk) && SameHeaders(disk, disk')
    requires j < |Table(disk)| && ByteSettled(mem, disk, j, k)
    ensures Right(Stage(mem, disk', Table(disk), |Table(disk)|), disk', Table(disk)[j], k)
  {
    var s := Table(disk)[j];
    AllStages(Table(disk));
    SettledIff(mem, disk, [PAGE] + Table(disk), Base(s) + k, Wanted(s, k));
  }

  // The loader is right for every image with these headers if and only if they are sound.
  lemma BootsEveryImageIff(mem: seq<Byte>, disk: seq<Byte>)
    requires IsImage(disk) && RoomForPage(|mem|, |disk|) && |mem| < TWO32
    ensures (forall disk': seq<Byte> :: SameHeaders(disk, disk') ==> IsImage(disk') && Boots(mem, disk')) <==> Sound(mem, disk)
  {
    if Sound(mem, disk) {
      forall disk': seq<Byte> | SameHeaders(disk, disk') ensures IsImage(disk') && Boots(mem, disk') {
        SoundKeeps(mem, disk, disk');
        BootsIff(mem, disk');
      }
    }
    if forall disk': seq<Byte> :: SameHeaders(disk, disk') ==> IsImage(disk') && Boots(mem, disk') {
      assert SameHeaders(disk, disk);
      BootsFits(mem, disk);
      forall disk': seq<Byte> | SameHeaders(disk, disk')
        ensures IsImage(disk') && Fitting(|mem|, disk') && Kept(mem, disk')
      {
        BootsFits(mem, disk');
        BootsIff(mem, disk');
      }
      KeptIsSound(mem, disk);
    }
  }

  lemma SoundBoots(mem: seq<Byte>, disk: seq<Byte>)
    requires RoomForPage(|mem|, |disk|) && |mem| < TWO32
    ensures IsImage(disk) && Sound(mem, disk) ==> Boots(mem, disk)
  {
    if IsImage(disk) && Sound(mem, disk) {
      BootsEveryImageIff(mem, disk);
      assert SameHeaders(disk, disk);
    }
  }

  lemma KeptIsSound(mem: seq<Byte>, disk: seq<Byte>)
    requires IsImage(disk) && RoomForPage(|mem|, |disk|) && Fitting(|mem|, disk)
    requires forall disk': seq<Byte> :: SameHeaders(disk, disk') ==>
      IsImage(disk') && Fitting(|mem|, disk') && Kept(mem, disk')
    ensures Sound(mem, disk)
  {
    forall i | 0 <= i < |Table(disk)| ensures HeaderSettled(mem, disk, i) {
      KeptHeader(mem, disk, i);
    }
    KeptEntry(mem, disk);
    forall j, k | 0 <= j < |Table(disk)| && 0 <= k < Table(disk)[j].memsz ensures ByteSettled(mem, disk, j, k) {
      KeptByte(mem, disk, j, k);
    }
  }

  lemma KeptHeader(mem: seq<Byte>, disk: seq<Byte>, i: nat)
    requires IsImage(disk) && RoomForPage(|mem|, |disk|) && Fitting(|mem|, disk) && i < |Table(disk)|
    requires forall disk': seq<Byte> :: SameHeaders(disk, disk') ==>
      IsImage(disk') && Fitting(|mem|, disk') && Kept(mem, disk')
    ensures HeaderSettled(mem, disk, i)
  {
    StagesFit(Table(disk), i, |mem|, |disk|);
    var a, w := TableAddress(disk, SECTSIZE) + PH_SIZE * i, TableOffset(disk) + PH_SIZE * i;
    forall f: nat | IsField(f) ensures Settled(mem, disk, [PAGE] + Table(disk)[..i], a + f, w + f) {
      KeptField(mem, disk, i, f);
    }
  }

  lemma KeptField(mem: seq<Byte>, disk: seq<Byte>, i: nat, f: nat)
    requires IsImage(disk) && RoomForPage(|mem|, |disk|) && Fitting(|mem|, disk) && i < |Table(disk)| && IsField(f)
    requires forall disk': seq<Byte> :: SameHeaders(disk, disk') ==>
      IsImage(disk') && Fitting(|mem|, disk') && Kept(mem, disk')
    ensures AllFit([PAGE] + Table(disk)[..i], |mem|, |disk|)
    ensures Settled(mem, disk, [PAGE] + Table(disk)[..i],
                    TableAddress(disk, SECTSIZE) + PH_SIZE * i + f, TableOffset(disk) + PH_SIZE * i + f)
  {
    var ss := Table(disk);
    StagesFit(ss, i, |mem|, |disk|);
    var a, w := TableAddress(disk, SECTSIZE) + PH_SIZE * i + f, TableOffset(disk) + PH_SIZE * i + f;
    forall disk': seq<Byte> | SameHeaders(disk, disk')
      ensures Load(mem, disk', [PAGE] + ss[..i])[a] == disk'[w]
    {
      SameTable(disk, disk');
      assert FieldsKept(mem, disk', i);
    }
    SettledIff(mem, disk, [PAGE] + ss[..i], a, w);
  }

  lemma KeptEntry(mem: seq<Byte>, disk: seq<Byte>)
    requires IsImage(disk) && RoomForPage(|mem|, |disk|) && Fitting(|mem|, disk)
    requires forall disk': seq<Byte> :: SameHeaders(disk, disk') ==>
      IsImage(disk') && Fitting(|mem|, disk') && Kept(mem, disk')
    ensures EntrySettled(mem, disk)
  {
    forall f: nat | IsEntry(f)
      ensures Settled(mem, disk, [PAGE] + Table(disk), ELFHDR + f, SECTSIZE + f)
    {
      KeptEntryByte(mem, disk, f);
    }
  }

  lemma KeptEntryByte(mem: seq<Byte>, disk: seq<Byte>, f: nat)
    requires IsImage(disk) && RoomForPage(|mem|, |disk|) && Fitting(|mem|, disk) && IsEntry(f)
    requires forall disk': seq<Byte> :: SameHeaders(disk, disk') ==>
      IsImage(disk') && Fitting(|mem|, disk') && Kept(mem, disk')
    ensures Settled(mem, disk, [PAGE] + Table(disk), ELFHDR + f, SECTSIZE + f)
  {
    var ss := Table(disk);
    AllStages(ss);
    forall disk': seq<Byte> | SameHeaders(disk, disk')
      ensures Load(mem, disk', [PAGE] + ss)[ELFHDR + f] == disk'[SECTSIZE + f]
    {
      SameTable(disk, disk');
      assert EntryKept(Stage(mem, disk', ss, |ss|), disk');
    }
    SettledIff(mem, disk, [PAGE] + ss, ELFHDR + f, SECTSIZE + f);
  }

  lemma KeptByte(mem: seq<Byte>, disk: seq<Byte>, j: nat, k: nat)
    requires IsImage(disk) && RoomForPage(|mem|, |disk|) && Fitting(|mem|, disk)
    requires j < |Table(disk)| && k < Table(disk)[j].memsz
    requires forall disk': seq<Byte> :: SameHeaders(disk, disk') ==>
      IsImage(disk') && Fitting(|mem|, disk') && Kept(mem, disk')
    ensures ByteSettled(mem, disk, j, k)
  {
    var ss := Table(disk);
    AllStages(ss);
    assert SameHeaders(disk, disk) && Right(Stage(mem, disk, ss, |ss|), disk, ss[j], k);
    forall disk': seq<Byte> | SameHeaders(disk, disk')
      ensures Load(mem, disk', [PAGE] + ss)[Base(ss[j]) + k] == disk'[Wanted(ss[j], k)]
    {
      SameTable(disk, disk');
      assert Right(Stage(mem, disk', ss, |ss|), disk', ss[j], k);
    }
    SettledIff(mem, disk, [PAGE] + ss, Base(ss[j]) + k, Wanted(ss[j], k));
  }

  // ----- the usual layout

  // Addresses and offsets agree within a sector, and segments that write the
  // same address lie at the same distance from the image.
  ghost predicate UsualLayout(ss: seq<Segment>) {
    && (forall j :: 0 <= j < |ss| ==> Base(ss[j]) % SECTSIZE == ss[j].offset % SECTSIZE)
    && (forall i, j, a: nat :: 0 <= i < |ss| && 0 <= j < |ss| && Writes(ss[i], a) && Writes(ss[j], a) ==>
          Base(ss[i]) - ss[i].offset == Base(ss[j]) - ss[j].offset)
  }

  lemma SourceOfAligned(s: Segment, a: nat)
    requires Base(s) % SECTSIZE == s.offset % SECTSIZE
    ensures Source(s, a) == SECTSIZE + s.offset + (a - Base(s))
  {
  }

  // What segment j writes at address a is what the first n segments leave there, if j is one of them.
  lemma UsualSource(ss: seq<Segment>, n: nat, j: nat, a: nat)
    requires UsualLayout(ss) && j < n <= |ss| && Writes(ss[j], a)
    ensures var i := LastWriter(ss[..n], a);
      i >= 0 && Source(ss[..n][i], a) == SECTSIZE + ss[j].offset + (a - Base(ss[j]))
  {
    assert ss[..n][j] == ss[j];
    var i := LastWriter(ss[..n], a);
    assert ss[..n][i] == ss[i];
    SourceOfAligned(ss[i], a);
  }

  // The usual layout is sound, if it takes the first page for a segment and the
  // program headers lie in that page.
  lemma UsualLayoutIsSound(mem: seq<Byte>, disk: seq<Byte>)
    requires IsImage(disk) && RoomForPage(|mem|, |disk|) && Fitting(|mem|, disk)
    requires UsualLayout([PAGE] + Table(disk))
    requires TableOffset(disk) + PH_SIZE * |Table(disk)| <= 9 * SECTSIZE
    ensures Sound(mem, disk)
  {
    forall i | 0 <= i < |Table(disk)| ensures HeaderSettled(mem, disk, i) {
      UsualHeader(mem, disk, i);
    }
    AllStages(Table(disk));
    forall f: nat | IsEntry(f) ensures Settled(mem, disk, [PAGE] + Table(disk), ELFHDR + f, SECTSIZE + f) {
      PageByteSettled(mem, disk, |Table(disk)|, f);
    }
    forall j, k | 0 <= j < |Table(disk)| && 0 <= k < Table(disk)[j].memsz ensures ByteSettled(mem, disk, j, k) {
      SegmentByteSettled(mem, disk, j, k);
    }
  }

  lemma UsualHeader(mem: seq<Byte>, disk: seq<Byte>, i: nat)
    requires IsImage(disk) && RoomForPage(|mem|, |disk|) && Fitting(|mem|, disk) && i < |Table(disk)|
    requires UsualLayout([PAGE] + Table(disk))
    requires TableOffset(disk) + PH_SIZE * |Table(disk)| <= 9 * SECTSIZE
    ensures HeaderSettled(mem, disk, i)
  {
    StagesFit(Table(disk), i, |mem|, |disk|);
    var a, w := TableAddress(disk, SECTSIZE) + PH_SIZE * i, TableOffset(disk) + PH_SIZE * i;
    assert a - ELFHDR == w - SECTSIZE;
    forall f: nat | IsField(f) ensures Settled(mem, disk, [PAGE] + Table(disk)[..i], a + f, w + f) {
      PageByteSettled(mem, disk, i, w - SECTSIZE + f);
    }
  }

  // Byte q of the first page stays what it is.
  lemma PageByteSettled(mem: seq<Byte>, disk: seq<Byte>, i: nat, q: nat)
    requires IsImage(disk) && RoomForPage(|mem|, |disk|) && Fitting(|mem|, disk) && i <= |Table(disk)|
    requires UsualLayout([PAGE] + Table(disk)) && q < 8 * SECTSIZE
    ensures AllFit([PAGE] + Table(disk)[..i], |mem|, |disk|)
    ensures Settled(mem, disk, [PAGE] + Table(disk)[..i], ELFHDR + q, SECTSIZE + q)
  {
    var all := [PAGE] + Table(disk);
    StagesFit(Table(disk), i, |mem|, |disk|);
    assert all[..i + 1] == [PAGE] + Table(disk)[..i];
    assert Writes(all[0], ELFHDR + q);
    UsualSource(all, i + 1, 0, ELFHDR + q);
  }

  lemma SegmentByteSettled(mem: seq<Byte>, disk: seq<Byte>, j: nat, k: nat)
    requires IsImage(disk) && Fitting(|mem|, disk) && j < |Table(disk)| && k < Table(disk)[j].memsz
    requires UsualLayout([PAGE] + Table(disk))
    ensures ByteSettled(mem, disk, j, k)
  {
    var all, s := [PAGE] + Table(disk), Table(disk)[j];
    assert all[..|all|] == all && all[j + 1] == s && Fits(all[j + 1], |mem|, |disk|);
    UsualSource(all, |all|, j + 1, Base(s) + k);
    SourceOfAligned(s, Base(s) + k);
  }

  // ----- images that do not boot

  // Byte i of a word.
  function ByteOf(w: Word, i: nat): Byte {
    if i == 0 then w % 256 else if i == 1 then w / 256 % 256 else if i == 2 then w / 0x1_0000 % 256 else w / 0x100_0000
  }

  // An ELF header with n program headers right behind it.
  function ElfByte(n: Count, q: nat): Byte {
    if q < 4 then ByteOf(ELF_MAGIC, q)
    else if 28 <= q < 32 then ByteOf(ELF_SIZE, q - 28)
    else if 44 <= q < 46 then ByteOf(n, q - 44)
    else 0
  }

  predicate IsHeader(s: Segment) { s.va < TWO32 && s.memsz < TWO32 && s.offset < TWO32 }

  function HeaderByte(s: Segment, f: nat): Byte
    requires IsHeader(s)
  {
    if 4 <= f < 8 then ByteOf(s.offset, f - 4)
    else if 8 <= f < 12 then ByteOf(s.va, f - 8)
    else if 20 <= f < 24 then ByteOf(s.memsz, f - 20)
    else 0
  }

  predicate AreHeaders(ss: seq<Segment>) { |ss| < 0x1_0000 && forall i :: 0 <= i < |ss| ==> IsHeader(ss[i]) }

  // Byte p of the disk with these program headers; of the bytes behind them one is 1.
  function ImageByte(ss: seq<Segment>, one: nat, p: nat): Byte
    requires AreHeaders(ss)
  {
    if p < SECTSIZE then 0
    else if p - SECTSIZE < ELF_SIZE then ElfByte(|ss|, p - SECTSIZE)
    else if p - SECTSIZE - ELF_SIZE < PH_SIZE * |ss| then
      var q := p - SECTSIZE - ELF_SIZE;
      HeaderByte(ss[q / PH_SIZE], q % PH_SIZE)
    else if p == one then 1 else 0
  }

  function Image(size: nat, ss: seq<Segment>, one: nat): (disk: seq<Byte>)
    requires AreHeaders(ss)
    ensures |disk| == size && forall p :: 0 <= p < size ==> disk[p] == ImageByte(ss, one, p)
  {
    seq(size, p requires 0 <= p < size => ImageByte(ss, one, p))
  }

  lemma BytesMakeWord(b: seq<Byte>, a: nat, w: Word)
    requires a + 4 <= |b|
    requires b[a] == ByteOf(w, 0) && b[a + 1] == ByteOf(w, 1) && b[a + 2] == ByteOf(w, 2) && b[a + 3] == ByteOf(w, 3)
    ensures Word32(b, a) == w
  {
    assert w == w % 256 + 256 * (w / 256);
    assert w / 256 == w / 256 % 256 + 256 * (w / 0x1_0000);
    assert w / 0x1_0000 == w / 0x1_0000 % 256 + 256 * (w / 0x100_0000);
  }

  // Any list of program headers is the table of some image.
  lemma ImageTable(size: nat, ss: seq<Segment>, one: nat)
    requires AreHeaders(ss) && size >= 9 * SECTSIZE && SECTSIZE + ELF_SIZE + PH_SIZE * |ss| <= size
    ensures var disk := Image(size, ss, one);
      && IsImage(disk) && TableOffset(disk) == SECTSIZE + ELF_SIZE && TableAddress(disk, SECTSIZE) == ELFHDR + ELF_SIZE
      && Table(disk) == ss && Word32(disk, SECTSIZE + 24) == 0
  {
    var disk := Image(size, ss, one);
    BytesMakeWord(disk, SECTSIZE, ELF_MAGIC);
    BytesMakeWord(disk, SECTSIZE + 28, ELF_SIZE);
    assert Half(disk, SECTSIZE + 44) == |ss|;
    forall i | 0 <= i < |ss| ensures HeaderAt(disk, TableOffset(disk) + PH_SIZE * i) == ss[i] {
      ImageHeader(size, ss, one, i);
    }
  }

  lemma ImageHeaderByte(ss: seq<Segment>, one: nat, i: nat, f: nat)
    requires AreHeaders(ss) && i < |ss| && f < PH_SIZE
    ensures ImageByte(ss, one, SECTSIZE + ELF_SIZE + PH_SIZE * i + f) == HeaderByte(ss[i], f)
  {
    var q := PH_SIZE * i + f;
    assert q / PH_SIZE == i && q % PH_SIZE == f;
  }

  lemma ImageWord(disk: seq<Byte>, a: nat, s: Segment, f: nat, w: Word)
    requires IsHeader(s) && a + PH_SIZE <= |disk| && forall f: nat :: f < PH_SIZE ==> disk[a + f] == HeaderByte(s, f)
    requires (f == 4 && w == s.offset) || (f == 8 && w == s.va) || (f == 20 && w == s.memsz)
    ensures Word32(disk, a + f) == w
  {
    assert disk[a + f] == HeaderByte(s, f);
    assert disk[a + (f + 1)] == HeaderByte(s, f + 1) && disk[a + (f + 2)] == HeaderByte(s, f + 2);
    assert disk[a + (f + 3)] == HeaderByte(s, f + 3);
    BytesMakeWord(disk, a + f, w);
  }

  lemma ImageHeader(size: nat, ss: seq<Segment>, one: nat, i: nat)
    requires AreHeaders(ss) && i < |ss| && SECTSIZE + ELF_SIZE + PH_SIZE * |ss| <= size
    ensures HeaderAt(Image(size, ss, one), SECTSIZE + ELF_SIZE + PH_SIZE * i) == ss[i]
  {
    ImageHeaderBytes(Image(size, ss, one), ss, one, i, SECTSIZE + ELF_SIZE + PH_SIZE * i);
  }

  lemma ImageHeaderBytes(disk: seq<Byte>, ss: seq<Segment>, one: nat, i: nat, a: nat)
    requires AreHeaders(ss) && i < |ss| && a == SECTSIZE + ELF_SIZE + PH_SIZE * i && a + PH_SIZE <= |disk|
    requires forall p :: 0 <= p < |disk| ==> disk[p] == ImageByte(ss, one, p)
    ensures HeaderAt(disk, a) == ss[i]
  {
    forall f: nat | f < PH_SIZE ensures disk[a + f] == HeaderByte(ss[i], f) {
      ImageHeaderByte(ss, one, i, f);
    }
    HeaderFromBytes(disk, a, ss[i]);
  }

  lemma HeaderFromBytes(disk: seq<Byte>, a: nat, s: Segment)
    requires IsHeader(s) && a + PH_SIZE <= |disk| && forall f: nat :: f < PH_SIZE ==> disk[a + f] == HeaderByte(s, f)
    ensures HeaderAt(disk, a) == s
  {
    ImageWord(disk, a, s, 4, s.offset);
    ImageWord(disk, a, s, 8, s.va);
    ImageWord(disk, a, s, 20, s.memsz);
  }

  // The two rounds of the loop.
  lemma TwoRounds(mem: seq<Byte>, disk: seq<Byte>, s: Segment, s': Segment)
    requires IsImage(disk) && RoomForPage(|mem|, |disk|) && |mem| < TWO32 && |Table(disk)| == 2
    requires TableAddress(disk, SECTSIZE) == ELFHDR + 52 && Fits(s, |mem|, |disk|) && Fits(s', |mem|, |disk|)
    requires HeaderAt(FirstPage(mem, disk), ELFHDR + 52) == s
    requires HeaderAt(ReadSegment(FirstPage(mem, disk), disk, s), ELFHDR + 84) == s'
    ensures var m := ReadSegment(ReadSegment(FirstPage(mem, disk), disk, s), disk, s');
      Booted(mem, disk) == (Jumped(Word32(m, ELFHDR + 24) % 0x100_0000, [s, s']), m)
  {
    PageHoldsHeader(mem, disk);
    var m0, ph := FirstPage(mem, disk), ELFHDR + 52;
    assert ReadTable(m0, disk, ph, 0) == Reads(true, [], m0);
    assert ReadTable(m0, disk, ph, 1) == Reads(true, [s], ReadSegment(m0, disk, s));
    assert ReadTable(m0, disk, ph, 2).calls == [s, s'];
  }

  // The first page holds header i where the loop looks for it.
  lemma PageHasHeader(mem: seq<Byte>, disk: seq<Byte>, i: nat)
    requires IsImage(disk) && RoomForPage(|mem|, |disk|) && i < |Table(disk)|
    requires TableOffset(disk) == SECTSIZE + ELF_SIZE && ELF_SIZE + PH_SIZE * (i + 1) <= 8 * SECTSIZE
    ensures HeaderAt(FirstPage(mem, disk), ELFHDR + ELF_SIZE + PH_SIZE * i) == Table(disk)[i]
  {
    var m, a, w := FirstPage(mem, disk), ELFHDR + ELF_SIZE + PH_SIZE * i, TableOffset(disk) + PH_SIZE * i;
    ReadSectors(mem, disk, PAGE, 0x1_0000, 0x1_1000, 512);
    forall f: nat | IsField(f) ensures m[a + f] == disk[w + f] {
    }
    SameHeader(m, a, disk, w);
  }

  // A segment of whole sectors.
  lemma ReadSectors(mem: seq<Byte>, disk: seq<Byte>, s: Segment, lo: nat, hi: nat, from: nat)
    requires lo % SECTSIZE == 0 && lo <= Base(s) < lo + SECTSIZE && hi == lo + SECTSIZE * ((Base(s) + s.memsz - lo + 511) / 512)
    requires from == (s.offset / SECTSIZE + 1) * SECTSIZE && hi <= |mem| && from + (hi - lo) <= |disk|
    ensures Lo(s) == lo && Hi(s) == hi && Fits(s, |mem|, |disk|)
    ensures forall a :: 0 <= a < |mem| ==>
      ReadSegment(mem, disk, s)[a] == if lo <= a < hi then disk[from + (a - lo)] else mem[a]
  {
    SectorSpan(s, lo, hi);
  }

  lemma SectorSpan(s: Segment, lo: nat, hi: nat)
    requires lo % SECTSIZE == 0 && lo <= Base(s) < lo + SECTSIZE && hi == lo + SECTSIZE * ((Base(s) + s.memsz - lo + 511) / 512)
    ensures Lo(s) == lo && Hi(s) == hi
  {
    assert Lo(s) == lo;
  }

  // The usual layout but for the header page is not enough: header 1 is lost
  // before the loop takes it, and segment 1 is not loaded at all.
  lemma HeadersMayBeOverwritten(mem: seq<Byte>, size: nat)
    requires 0x10_1000 <= |mem| < TWO32 && size >= 0x3200 && mem[0x10_0000] == 0
    ensures var ss := [Segment(0x1_0000, 512, 0x1000), Segment(0x10_0000, 4096, 0x2000)];
      var disk := Image(size, ss, SECTSIZE + 0x2000);
      && IsImage(disk) && Table(disk) == ss && Fitting(|mem|, disk) && UsualLayout(ss)
      && Booted(mem, disk).0 == Jumped(0, [ss[0], Segment(0, 0, 0)])
      && Booted(mem, disk).1[0x10_0000] == 0 && disk[Wanted(ss[1], 0)] == 1
      && !Loaded(Booted(mem, disk).1, disk, ss)
  {
    var s, s1 := Segment(0x1_0000, 512, 0x1000), Segment(0x10_0000, 4096, 0x2000);
    var disk := Image(size, [s, s1], SECTSIZE + 0x2000);
    ImageTable(size, [s, s1], SECTSIZE + 0x2000);
    OverlapFits(mem, disk);
    OverlapRuns(mem, disk, s, s1);
    NotLoaded(Booted(mem, disk).1, disk, [s, s1], 1);
  }

  lemma OverlapRuns(mem: seq<Byte>, disk: seq<Byte>, s: Segment, s1: Segment)
    requires 0x10_1000 <= |mem| < TWO32 && |disk| >= 0x3200 && mem[0x10_0000] == 0
    requires IsImage(disk) && TableOffset(disk) == SECTSIZE + ELF_SIZE && TableAddress(disk, SECTSIZE) == ELFHDR + ELF_SIZE
    requires s == Segment(0x1_0000, 512, 0x1000) && s1 == Segment(0x10_0000, 4096, 0x2000) && Table(disk) == [s, s1]
    requires disk[0x2200] == 1 && forall p :: 0x1200 <= p < 0x1400 ==> disk[p] == 0
    ensures RoomForPage(|mem|, |disk|) && Booted(mem, disk).0 == Jumped(0, [s, Segment(0, 0, 0)])
    ensures Booted(mem, disk).1[0x10_0000] == 0
  {
    PageHasHeader(mem, disk, 0);
    OverlapMemory(mem, disk, s);
    ZeroHeader(ReadSegment(FirstPage(mem, disk), disk, s));
    TwoRounds(mem, disk, s, Segment(0, 0, 0));
  }

  lemma OverlapMemory(mem: seq<Byte>, disk: seq<Byte>, s: Segment)
    requires 0x10_1000 <= |mem| && |disk| >= 0x3200 && mem[0x10_0000] == 0
    requires s == Segment(0x1_0000, 512, 0x1000) && forall p :: 0x1200 <= p < 0x1400 ==> disk[p] == 0
    ensures RoomForPage(|mem|, |disk|) && Fits(s, |mem|, |disk|) && Fits(Segment(0, 0, 0), |mem|, |disk|)
    ensures var m := ReadSegment(FirstPage(mem, disk), disk, s);
      && (forall a :: ELFHDR <= a < ELFHDR + 512 ==> m[a] == 0)
      && ReadSegment(m, disk, Segment(0, 0, 0)) == m && m[0x10_0000] == 0
  {
    ReadSectors(mem, disk, PAGE, 0x1_0000, 0x1_1000, 512);
    var m0 := FirstPage(mem, disk);
    ReadSectors(m0, disk, s, 0x1_0000, 0x1_0200, 0x1200);
    ReadSectors(ReadSegment(m0, disk, s), disk, Segment(0, 0, 0), 0, 0, 512);
  }

  lemma ZeroHeader(m: seq<Byte>)
    requires ELFHDR + 512 <= |m| && forall a :: ELFHDR <= a < ELFHDR + 512 ==> m[a] == 0
    ensures HeaderAt(m, ELFHDR + 84) == Segment(0, 0, 0) && Word32(m, ELFHDR + 24) == 0
  {
  }

  lemma OverlapFits(mem: seq<Byte>, disk: seq<Byte>)
    requires 0x10_1000 <= |mem| && |disk| >= 0x3200
    ensures var ss := [Segment(0x1_0000, 512, 0x1000), Segment(0x10_0000, 4096, 0x2000)];
      RoomForPage(|mem|, |disk|) && AllFit([PAGE] + ss, |mem|, |disk|) && UsualLayout(ss)
  {
    var s, s1 := Segment(0x1_0000, 512, 0x1000), Segment(0x10_0000, 4096, 0x2000);
    ReadSectors(mem, disk, s, 0x1_0000, 0x1_0200, 0x1200);
    ReadSectors(mem, disk, s1, 0x10_0000, 0x10_1000, 0x2200);
    assert Fits(PAGE, |mem|, |disk|);
  }

  lemma NotLoaded(m: seq<Byte>, disk: seq<Byte>, ss: seq<Segment>, j: nat)
    requires j < |ss| && ss[j].memsz > 0 && Base(ss[j]) < |m| && Wanted(ss[j], 0) < |disk|
    requires m[Base(ss[j])] != disk[Wanted(ss[j], 0)]
    ensures !Loaded(m, disk, ss)
  {
    assert !Right(m, disk, ss[j], 0);
  }

  // Loading in increasing order is not enough: byte 0 of segment 0 is lost to segment 1.
  lemma IncreasingOrderIsNotEnough(mem: seq<Byte>, size: nat)
    requires 0x10_0200 <= |mem| < TWO32 && size >= 0x1200
    ensures var ss := [Segment(0x10_0000, 16, 0), Segment(0x10_0100, 16, 0x300)];
      var disk := Image(size, ss, 0);
      && IsImage(disk) && Table(disk) == ss && Fitting(|mem|, disk)
      && Base(ss[0]) + ss[0].memsz <= Base(ss[1])
      && Base(ss[0]) % SECTSIZE == ss[0].offset % SECTSIZE && Base(ss[1]) % SECTSIZE == ss[1].offset % SECTSIZE
      && Booted(mem, disk).0 == Jumped(0, ss)
      && Booted(mem, disk).1[0x10_0000] == 0 && disk[Wanted(ss[0], 0)] == 0x7F
      && !Loaded(Booted(mem, disk).1, disk, ss)
  {
    var s, s' := Segment(0x10_0000, 16, 0), Segment(0x10_0100, 16, 0x300);
    var disk := Image(size, [s, s'], 0);
    ImageTable(size, [s, s'], 0);
    SharedFits(mem, disk);
    SharedRuns(mem, disk, s, s');
    NotLoaded(Booted(mem, disk).1, disk, [s, s'], 0);
  }

  lemma SharedRuns(mem: seq<Byte>, disk: seq<Byte>, s: Segment, s': Segment)
    requires 0x10_0200 <= |mem| < TWO32 && |disk| >= 0x1200
    requires IsImage(disk) && TableOffset(disk) == SECTSIZE + ELF_SIZE && TableAddress(disk, SECTSIZE) == ELFHDR + ELF_SIZE
    requires s == Segment(0x10_0000, 16, 0) && s' == Segment(0x10_0100, 16, 0x300) && Table(disk) == [s, s']
    requires disk[512] == 0x7F && disk[1024] == 0 && Word32(disk, SECTSIZE + 24) == 0
    ensures RoomForPage(|mem|, |disk|) && Booted(mem, disk).0 == Jumped(0, [s, s'])
    ensures Booted(mem, disk).1[0x10_0000] == 0
  {
    PageHasHeader(mem, disk, 0);
    PageHasHeader(mem, disk, 1);
    SharedMemory(mem, disk, s, s');
    TwoRounds(mem, disk, s, s');
  }

  lemma SharedMemory(mem: seq<Byte>, disk: seq<Byte>, s: Segment, s': Segment)
    requires 0x10_0200 <= |mem| && |disk| >= 0x1200
    requires s == Segment(0x10_0000, 16, 0) && s' == Segment(0x10_0100, 16, 0x300)
    ensures RoomForPage(|mem|, |disk|) && Fits(s, |mem|, |disk|) && Fits(s', |mem|, |disk|)
    ensures var m0 := FirstPage(mem, disk);
      var m1 := ReadSegment(m0, disk, s);
      var m := ReadSegment(m1, disk, s');
      && HeaderAt(m1, ELFHDR + 84) == HeaderAt(m0, ELFHDR + 84)
      && m[0x10_0000] == disk[1024] && Word32(m, ELFHDR + 24) == Word32(disk, SECTSIZE + 24)
  {
    ReadSectors(mem, disk, PAGE, 0x1_0000, 0x1_1000, 512);
    var m0 := FirstPage(mem, disk);
    ReadSectors(m0, disk, s, 0x10_0000, 0x10_0200, 512);
    var m1 := ReadSegment(m0, disk, s);
    SameHeader(m1, ELFHDR + 84, m0, ELFHDR + 84);
    ReadSectors(m1, disk, s', 0x10_0000, 0x10_0200, 1024);
    SameWord(ReadSegment(m1, disk, s'), ELFHDR + 24, disk, SECTSIZE + 24);
  }

  lemma SharedFits(mem: seq<Byte>, disk: seq<Byte>)
    requires 0x10_0200 <= |mem| && |disk| >= 0x1200
    ensures var ss := [Segment(0x10_0000, 16, 0), Segment(0x10_0100, 16, 0x300)];
      RoomForPage(|mem|, |disk|) && AllFit([PAGE] + ss, |mem|, |disk|)
  {
    ReadSectors(mem, disk, Segment(0x10_0000, 16, 0), 0x10_0000, 0x10_0200, 512);
    ReadSectors(mem, disk, Segment(0x10_0100, 16, 0x300), 0x10_0000, 0x10_0200, 1024);
    assert Fits(PAGE, |mem|, |disk|);
  }

  // ----- as the loader runs it

  // readsect, with the disk as an array: one sector.
  method ReadSect(mem: array<Byte>, dst: nat, disk: array<Byte>, sector: nat)
    requires mem != disk && dst + SECTSIZE <= mem.Length && sector * SECTSIZE + SECTSIZE <= disk.Length
    modifies mem
    ensures forall a :: 0 <= a < mem.Length ==>
      mem[a] == if dst <= a < dst + SECTSIZE then disk[sector * SECTSIZE + (a - dst)] else old(mem[a])
  {
    for i := 0 to SECTSIZE
      invariant forall a :: 0 <= a < mem.Length ==>
        mem[a] == if dst <= a < dst + i then disk[sector * SECTSIZE + (a - dst)] else old(mem[a])
    {
      mem[dst + i] := disk[sector * SECTSIZE + i];
    }
  }

  method ReadSeg(mem: array<Byte>, disk: array<Byte>, s: Segment)
    requires mem != disk && Fits(s, mem.Length, disk.Length)
    modifies mem
    ensures mem[..] == ReadSegment(old(mem[..]), disk[..], s)
  {
    var va, end := Lo(s), Base(s) + s.memsz;
    var offset := s.offset / SECTSIZE + 1;
    while va < end
      invariant AtSector(s, va)
      invariant offset * SECTSIZE == (s.offset / SECTSIZE + 1) * SECTSIZE + (va - Lo(s))
      invariant forall a :: 0 <= a < mem.Length ==>
        mem[a] == if Lo(s) <= a < va then disk[Source(s, a)] else old(mem[a])
      decreases end - va
    {
      NextSector(s, va);
      ReadSect(mem, va, disk, offset);
      va := va + SECTSIZE;
      offset := offset + 1;
    }
    LastSector(s, va);
  }

  // readseg has come to the sector at va.
  predicate AtSector(s: Segment, va: nat) {
    Lo(s) <= va <= Hi(s) && (va - Lo(s)) % SECTSIZE == 0
  }

  lemma NextSector(s: Segment, va: nat)
    requires AtSector(s, va) && va < Base(s) + s.memsz
    ensures va + SECTSIZE <= Hi(s) && AtSector(s, va + SECTSIZE)
  {
    SectorsApart(va - Lo(s), Hi(s) - Lo(s));
  }

  lemma LastSector(s: Segment, va: nat)
    requires AtSector(s, va) && va >= Base(s) + s.memsz
    ensures va == Hi(s)
  {
    SectorsApart(va - Lo(s), Hi(s) - Lo(s));
  }

  lemma SectorsApart(x: nat, y: nat)
    requires x % SECTSIZE == 0 && y % SECTSIZE == 0
    ensures (x < y ==> x + SECTSIZE <= y) && (x + SECTSIZE) % SECTSIZE == 0
  {
  }

  // cmain, up to the jump to the kernel.
  method Cmain(mem: array<Byte>, disk: array<Byte>) returns (r: Outcome)
    requires mem != disk && RoomForPage(mem.Length, disk.Length) && mem.Length < TWO32
    modifies mem
    ensures (r, mem[..]) == Booted(old(mem[..]), disk[..])
    // An image with sound headers is loaded and entered.
    ensures IsImage(disk[..]) && Sound(old(mem[..]), disk[..]) ==>
      r == Jumped(Word32(disk[..], SECTSIZE + 24) % 0x100_0000, Table(disk[..])) && Loaded(mem[..], disk[..], Table(disk[..]))
  {
    SoundBoots(mem[..], disk[..]);
    ReadSeg(mem, disk, PAGE);
    if Word32(mem[..], ELFHDR) != ELF_MAGIC {
      return Rejected;
    }
    var ph := TableAddress(mem[..], ELFHDR);
    var ok, calls := ReadHeaders(mem, disk, ph, Half(mem[..], ELFHDR + 44));
    r := if ok then Jumped(Word32(mem[..], ELFHDR + 24) % 0x100_0000, calls) else Beyond;
  }

  // The loop of cmain over the program headers.
  method ReadHeaders(mem: array<Byte>, disk: array<Byte>, table: Word, phnum: Count) returns (ok: bool, calls: seq<Segment>)
    requires mem != disk && mem.Length < TWO32
    modifies mem
    ensures Reads(ok, calls, mem[..]) == ReadTable(old(mem[..]), disk[..], table, Rounds(table, phnum))
  {
    ghost var n, i := Rounds(table, phnum), 0;
    var ph, eph := table, (table + PH_SIZE * phnum) % TWO32;
    calls := [];
    LoopGuard(table, phnum, 0);
    while ph < eph
      invariant 0 <= i <= n && ph == table + PH_SIZE * i && (i < n <==> ph < eph) && ph < TWO32
      invariant ReadTable(old(mem[..]), disk[..], table, i) == Reads(true, calls, mem[..])
      decreases n - i
    {
      LoopGuard(table, phnum, i);
      LoopGuard(table, phnum, i + 1);
      if ph + PH_SIZE > mem.Length || !Fits(HeaderAt(mem[..], ph), mem.Length, disk.Length) {
        StuckAt(old(mem[..]), disk[..], table, i, n);
        return false, calls;
      }
      OneMoreRound(old(mem[..]), disk[..], table, i, Reads(true, calls, mem[..]));
      var s := HeaderAt(mem[..], ph);
      ReadSeg(mem, disk, s);
      ph, calls, i := ph + PH_SIZE, calls + [s], i + 1;
    }
    return true, calls;
  }

  // The comparison of the two pointers counts the rounds.
  lemma LoopGuard(table: Word, phnum: Count, i: nat)
    requires i <= Rounds(table, phnum)
    ensures i < Rounds(table, phnum) <==> table + PH_SIZE * i < (table + PH_SIZE * phnum) % TWO32
    ensures i < Rounds(table, phnum) ==> table + PH_SIZE * (i + 1) < TWO32
  {
    if table + PH_SIZE * phnum >= TWO32 {
      assert (table + PH_SIZE * phnum) % TWO32 == table + PH_SIZE * phnum - TWO32;
    }
  }

  // A loop that leaves memory or disk in round i ends there.
  lemma {:induction false} StuckAt(mem: seq<Byte>, disk: seq<Byte>, ph: nat, i: nat, n: nat)
    requires i < n && ReadTable(mem, disk, ph, i).ok
    requires ph + PH_SIZE * (i + 1) > |mem| ||
      !Fits(HeaderAt(ReadTable(mem, disk, ph, i).mem, ph + PH_SIZE * i), |mem|, |disk|)
    ensures ReadTable(mem, disk, ph, n) == ReadTable(mem, disk, ph, i).(ok := false)
    decreases n
  {
    if i + 1 < n { StuckAt(mem, disk, ph, i, n - 1); } else { StuckNow(mem, disk, ph, i); }
  }

  lemma StuckNow(mem: seq<Byte>, disk: seq<Byte>, ph: nat, i: nat)
    requires ReadTable(mem, disk, ph, i).ok
    requires ph + PH_SIZE * (i + 1) > |mem| ||
      !Fits(HeaderAt(ReadTable(mem, disk, ph, i).mem, ph + PH_SIZE * i), |mem|, |disk|)
    ensures ReadTable(mem, disk, ph, i + 1) == ReadTable(mem, disk, ph, i).(ok := false)
  {
  }

  lemma OneMoreRound(mem: seq<Byte>, disk: seq<Byte>, ph: nat, i: nat, r: Reads)
    requires ReadTable(mem, disk, ph, i) == r && r.ok && |r.mem| == |mem| && ph + PH_SIZE * i + PH_SIZE <= |mem|
    requires Fits(HeaderAt(r.mem, ph + PH_SIZE * i), |mem|, |disk|)
    ensures var s := HeaderAt(r.mem, ph + PH_SIZE * i);
      ReadTable(mem, disk, ph, i + 1) == Reads(true, r.calls + [s], ReadSegment(r.mem, disk, s))
  {
  }
}
