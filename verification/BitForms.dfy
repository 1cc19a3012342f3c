/**
 The shifts, masks and disjunctions that the C sources write, and the divisions,
 remainders and sums by which the model writes them (inc/mmu.h:30-78,
 kern/helpers.h:66-69, kern/syscall.c:116, kern/user_environment.c:351-354,
 boot/main.c:74-78).
 */
module BitForms {
  import opened Words
  import Environments
  import Loader
  import Runs

  // Bitwise conjunction and disjunction of unsigned numbers.
  function And(a: nat, b: nat): nat {
    if a == 0 || b == 0 then 0 else (if a % 2 == 1 && b % 2 == 1 then 1 else 0) + 2 * And(a / 2, b / 2)
  }

  function Or(a: nat, b: nat): nat
    decreases a + b
  {
    if a == 0 then b else if b == 0 then a
    else (if a % 2 == 1 || b % 2 == 1 then 1 else 0) + 2 * Or(a / 2, b / 2)
  }

  function Pow2(k: nat): (p: nat)
    ensures p > 0
  {
    if k == 0 then 1 else 2 * Pow2(k - 1)
  }

  lemma ModDouble(a: nat, m: nat)
    requires m > 0
    ensures a % (2 * m) == a % 2 + 2 * (a / 2 % m)
  {
    var q, r := a / 2 / m, a / 2 % m;
    assert a / 2 == q * m + r;
    assert a == 2 * (a / 2) + a % 2;
    assert 2 * (q * m) == q * (2 * m);
    ModUnique(a, 2 * m, q, a % 2 + 2 * r);
  }

  lemma ModUnique(a: nat, m: nat, q: nat, r: nat)
    requires a == q * m + r && r < m
    ensures a % m == r && a / m == q
  {
    QuotientUnique(m, q, r, a / m, a % m);
  }

  lemma QuotientUnique(m: nat, q: nat, r: nat, q': nat, r': nat)
    requires r < m && r' < m && q * m + r == q' * m + r'
    ensures q == q' && r == r'
  {
    if q < q' {
      assert (q' - q) * m >= m by { Multiple(q' - q, m); }
    } else if q' < q {
      assert (q - q') * m >= m by { Multiple(q - q', m); }
    }
  }

  lemma Multiple(x: nat, m: nat)
    requires x > 0
    ensures x * m >= m
  {
  }

  // A mask of k ones keeps the remainder.
  lemma {:induction false} AndLow(a: nat, k: nat)
    ensures And(a, Pow2(k) - 1) == a % Pow2(k)
  {
    if k > 0 {
      var m := Pow2(k - 1);
      AndLow(a / 2, k - 1);
      ModDouble(a, m);
      assert (2 * m - 1) / 2 == m - 1 && (2 * m - 1) % 2 == 1;
    }
  }

  lemma AndEven(a: nat, b: nat)
    ensures And(a, 2 * b) == 2 * And(a / 2, b)
  {
  }

  // A mask of ones above k clears the remainder.
  lemma {:induction false} AndHigh(a: nat, n: nat, k: nat)
    requires k <= n && a < Pow2(n)
    ensures Pow2(k) <= Pow2(n) && And(a, Pow2(n) - Pow2(k)) == a - a % Pow2(k)
  {
    if k == 0 {
      AndLow(a, n);
      ModUnique(a, Pow2(n), 0, a);
      assert a % 1 == 0;
    } else {
      var m, h := Pow2(k - 1), Pow2(n - 1);
      AndHigh(a / 2, n - 1, k - 1);
      ModDouble(a, m);
      AndEven(a, h - m);
      assert Pow2(n) - Pow2(k) == 2 * (h - m);
      assert And(a, 2 * (h - m)) == 2 * (a / 2 - a / 2 % m);
      assert a % Pow2(k) == a % 2 + 2 * (a / 2 % m);
      Halves(a);
    }
  }

  lemma Halves(a: nat)
    ensures a == 2 * (a / 2) + a % 2
  {
  }

  // Numbers without a common bit are joined by adding them.
  lemma {:induction false} OrDisjoint(a: nat, b: nat, k: nat)
    requires a % Pow2(k) == 0 && b < Pow2(k)
    ensures Or(a, b) == a + b
  {
    if k > 0 && a > 0 && b > 0 {
      ModDouble(a, Pow2(k - 1));
      OrDisjoint(a / 2, b / 2, k - 1);
    }
  }

  // ----- the macros

  lemma Pow10()
    ensures Pow2(10) == 1024
  {
  }

  lemma Pow12()
    ensures Pow2(12) == 4096
  {
  }

  lemma Pow32()
    ensures Pow2(32) == TWO32
  {
    assert Pow2(12) == 4096;
    assert Pow2(17) == 0x2_0000;
    assert Pow2(22) == 0x40_0000;
    assert Pow2(27) == 0x800_0000;
  }

  // A mask of k ones, for the k that occur.
  lemma Ones(a: nat, k: nat, ones: nat)
    requires ones == Pow2(k) - 1
    ensures And(a, ones) == a % (ones + 1)
    ensures a <= ones ==> And(a, ones) == a
  {
    AndLow(a, k);
    if a <= ones { ModUnique(a, Pow2(k), 0, a); }
  }

  // la >> 22
  lemma PdxBits(la: Word)
    ensures PDX(la) == And(la / 0x40_0000, 0x3FF)
  {
    TenBits(PDX(la));
  }

  lemma TenBits(i: nat)
    requires i < 1024
    ensures And(i, 0x3FF) == i
  {
    Pow10();
    Ones(i, 10, 0x3FF);
  }

  // la >> 12
  lemma PtxBits(la: Word)
    ensures PTX(la) == And(la / 4096, 0x3FF)
  {
    Pow10();
    Ones(la / 4096, 10, 0x3FF);
  }

  lemma PgoffBits(la: Word)
    ensures PGOFF(la) == And(la, 0xFFF)
  {
    Pow12();
    Ones(la, 12, 0xFFF);
  }

  // A mask of ones from bit k to bit n.
  lemma HighOnes(a: nat, n: nat, k: nat, size: nat, unit: nat)
    requires k <= n && size == Pow2(n) && unit == Pow2(k) && a < size
    ensures unit <= size && And(a, size - unit) == a - a % unit
  {
    AndHigh(a, n, k);
  }

  // EXTRACT_ADDRESS clears the low 12 bits.
  lemma ExtractBits(entry: Word)
    ensures ExtractAddress(entry) == And(entry, 0xFFFF_F000)
  {
    Pow32();
    Pow12();
    HighOnes(entry, 32, 12, TWO32, 4096);
  }

  // PERM_PRESENT is the lowest bit.
  lemma PresentBit(entry: Word)
    ensures Present(entry) <==> And(entry, PERM_PRESENT) == PERM_PRESENT
  {
    Ones(entry, 1, 1);
    LowestBit(entry);
  }

  lemma LowestBit(a: nat)
    ensures a % 4096 % 2 == a % 2
  {
    var q := a / 4096;
    assert a == 2 * (2048 * q) + a % 4096;
  }

  // CONSTRUCT_ENTRY and the permission bits that are or-ed in.
  lemma EntryJoins(f: nat, perm: nat)
    requires f < 0x10_0000 && perm < 4096
    ensures ConstructEntry(f, perm) == Or(f * 4096, perm)
    ensures WithPresent(perm) == Or(perm, PERM_PRESENT)
    ensures WithUser(perm) == Or(perm, PERM_USER)
  {
    Pow12();
    OrDisjoint(f * 4096, perm, 12);
    OrBit0(perm);
    OrBit2(perm);
  }

  lemma OrBit0(a: nat)
    ensures Or(a, 1) == if a % 2 == 1 then a else a + 1
  {
    if a > 0 { assert Or(a / 2, 0) == a / 2; }
  }

  lemma OrBit2(a: nat)
    ensures Or(a, 4) == if a / 4 % 2 == 1 then a else a + 4
  {
    OrUnfold(a, 4, 2);
    OrUnfold(a / 2, 2, 1);
    OrBit0(a / 4);
    assert a / 2 / 2 == a / 4;
    Halves(a);
    Halves(a / 2);
  }

  lemma OrUnfold(a: nat, b: nat, half: nat)
    requires b == 2 * half && half > 0
    ensures Or(a, b) == a % 2 + 2 * Or(a / 2, half)
  {
    if a > 0 { assert b % 2 == 0 && b / 2 == half; }
  }

  // The bits of a mask from k on, and those below k.
  lemma {:induction false} AndSum(a: nat, b: nat, c: nat, k: nat)
    requires b % Pow2(k) == 0 && c < Pow2(k)
    ensures And(a, b + c) == And(a, b) + And(a, c)
    decreases k
  {
    if k > 0 {
      ModDouble(b, Pow2(k - 1));
      AndSum(a / 2, b / 2, c / 2, k - 1);
      assert b % 2 == 0 && (b + c) / 2 == b / 2 + c / 2;
    }
  }

  // The check of the permissions in sys_allocate_page: no bit but PERM_USER
  // among those outside PERM_AVAILABLE and PERM_WRITEABLE.
  lemma PermissionBits(perm: Word)
    ensures Runs.PermAllowed(perm) <==> And(perm, 0xFFFF_F1FD) == PERM_USER
  {
    Pow12();
    AndSumOf(perm, 0xFFFF_F000, 0x1FD, 12, 4096);
    ExtractBits(perm);
    LowPermissionBits(perm);
    QuarterOf(perm);
  }

  lemma AndSumOf(a: nat, b: nat, c: nat, k: nat, size: nat)
    requires size == Pow2(k) && b % size == 0 && c < size
    ensures And(a, b + c) == And(a, b) + And(a, c)
  {
    AndSum(a, b, c, k);
  }

  lemma LowPermissionBits(perm: Word)
    ensures And(perm, 0x1FD) == 4 * (perm / 2 / 2 % 128) + perm % 2
  {
    AndSumOf(perm, 0x1FC, 1, 1, 2);
    Ones(perm, 1, 1);
    AndEven(perm, 0xFE);
    AndEven(perm / 2, 0x7F);
    Pow7();
    Ones(perm / 2 / 2, 7, 0x7F);
  }

  lemma QuarterOf(perm: Word)
    ensures Runs.PermAllowed(perm) <==> perm - perm % 4096 + 4 * (perm / 2 / 2 % 128) + perm % 2 == PERM_USER
  {
    assert perm / 2 / 2 == perm / 4;
    var q := perm / 4096;
    assert perm - perm % 4096 == 4096 * q;
    if q > 0 { assert !Runs.PermAllowed(perm); }
  }

  lemma Pow7()
    ensures Pow2(7) == 128
  {
  }

  // ENVX, and clearing the index in the two's-complement form of an id.
  lemma EnvIdBits(id: Int32)
    ensures Environments.Envx(id) == And(id % TWO32, 0x3FF)
    ensures Environments.ClearIndex(id) == Wrap32(And(id % TWO32, 0xFFFF_FC00))
  {
    var u := if id < 0 then id + TWO32 else id as int;
    assert id % TWO32 == u;
    Pow10();
    Pow32();
    Ones(u, 10, 0x3FF);
    HighOnes(u, 32, 10, TWO32, 1024);
    TwosComplement(id, u);
  }

  lemma TwosComplement(id: Int32, u: nat)
    requires u == if id < 0 then id + TWO32 else id as int
    ensures u % 1024 == id % 1024 && Wrap32(u - u % 1024) == id - id % 1024
  {
    var q, r := id / 1024, id % 1024;
    assert id == q * 1024 + r;
    if id < 0 {
      ModUnique(u, 1024, q + 0x40_0000, r);
    }
  }

  // A generation and a slot number have no bit in common.
  lemma EnvIdJoins(generation: nat, slot: nat)
    requires generation % 1024 == 0 && slot < 1024
    ensures generation + slot == Or(generation, slot)
  {
    Pow10();
    OrDisjoint(generation, slot, 10);
  }

  // va & 0xFFFFFF, and the rounding down to a sector.
  lemma LoaderMasks(s: Loader.Segment)
    ensures Loader.Base(s) == And(s.va, 0xFF_FFFF)
    ensures Loader.Lo(s) == And(Loader.Base(s), 0xFFFF_FE00)
  {
    Pow24();
    Pow32();
    Ones(s.va, 24, 0xFF_FFFF);
    HighOnes(Loader.Base(s), 32, 9, TWO32, 512);
  }

  lemma Pow24()
    ensures Pow2(9) == 512 && Pow2(24) == 0x100_0000
  {
    assert Pow2(14) == 0x4000;
    assert Pow2(19) == 0x8_0000;
  }
}
