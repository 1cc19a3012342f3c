/**
 Searching the debugging symbols (kern/kdebug.c:59-103): a binary search over a
 table in which only the entries of one type are ordered, and the others are
 skipped backwards.
 */
module Stabs {
  import opened Words

  datatype Stab = Stab(nType: nat, nValue: Word)

  predicate Match(stabs: seq<Stab>, i: int, ty: nat) {
    0 <= i < |stabs| && stabs[i].nType == ty
  }

  // ----- the search as a function

  datatype Search = Search(l: int, r: int, left: int, right: int, anyMatches: bool, addr: Word)

  // The last matching entry in [l, m], l - 1 if there is none.
  function ScanBack(stabs: seq<Stab>, l: int, m: int, ty: nat): (k: int)
    requires 0 <= l <= m + 1 <= |stabs|
    ensures l - 1 <= k <= m
    ensures k >= l ==> Match(stabs, k, ty)
    ensures forall i :: k < i <= m ==> !Match(stabs, i, ty)
    decreases m - l
  {
    if m < l || stabs[m].nType == ty then m else ScanBack(stabs, l, m - 1, ty)
  }

  predicate InTable(stabs: seq<Stab>, s: Search) { 0 <= s.l && s.r < |stabs| }

  // What a round of the loop makes of the entry m found at or below the middle t.
  function Probe(stabs: seq<Stab>, s: Search, t: int, m: int): Search
    requires 0 <= s.l && m < |stabs|
  {
    if m < s.l then s.(l := t + 1)
    else if stabs[m].nValue < s.addr then s.(left := m, l := t + 1, anyMatches := true)
    else if stabs[m].nValue > s.addr then s.(right := m - 1, r := m - 1, anyMatches := true)
    else s.(left := m, l := m, addr := (s.addr + 4) % TWO32, anyMatches := true)
  }

  function Middle(s: Search): int { (s.l + s.r) / 2 }

  // Whether the value at l is the address.
  function AtAddr(stabs: seq<Stab>, s: Search): nat
    requires InTable(stabs, s)
  {
    if s.l <= s.r && stabs[s.l].nValue == s.addr then 1 else 0
  }

  // An exact match may leave l and r alone, but then it moves addr off the
  // value at l: the loop ends on every table, ordered or not.
  function Loop(stabs: seq<Stab>, ty: nat, s: Search): (s': Search)
    requires InTable(stabs, s)
    ensures InTable(stabs, s')
    ensures 0 <= s.left && s.right < |stabs| ==> 0 <= s'.left && s'.right < |stabs|
    decreases s.r - s.l, AtAddr(stabs, s)
  {
    if s.l > s.r then s
    else Loop(stabs, ty, Probe(stabs, s, Middle(s), ScanBack(stabs, s.l, Middle(s), ty)))
  }

  lemma LoopRound(stabs: seq<Stab>, ty: nat, s: Search)
    requires InTable(stabs, s) && s.l <= s.r
    ensures var s' := Probe(stabs, s, Middle(s), ScanBack(stabs, s.l, Middle(s), ty));
      && InTable(stabs, s') && Loop(stabs, ty, s) == Loop(stabs, ty, s')
      && (s'.r - s'.l < s.r - s.l || (s'.r - s'.l == s.r - s.l && AtAddr(stabs, s') < AtAddr(stabs, s)))
  {
    assert s.l <= Middle(s) <= s.r;
    RoundShrinks(stabs, s, Middle(s), ScanBack(stabs, s.l, Middle(s), ty));
  }

  lemma RoundShrinks(stabs: seq<Stab>, s: Search, t: int, m: int)
    requires InTable(stabs, s) && s.l - 1 <= m <= t && s.l <= t <= s.r
    ensures var s' := Probe(stabs, s, t, m);
      && InTable(stabs, s')
      && (s'.r - s'.l < s.r - s.l || (s'.r - s'.l == s.r - s.l && AtAddr(stabs, s') < AtAddr(stabs, s)))
  {
  }

  lemma LoopDone(stabs: seq<Stab>, ty: nat, s: Search)
    requires InTable(stabs, s) && s.l > s.r
    ensures Loop(stabs, ty, s) == s
  {
  }

  function Finish(stabs: seq<Stab>, ty: nat, s: Search): (int, int)
    requires 0 <= s.left && s.right < |stabs|
  {
    if !s.anyMatches then (s.left, s.left - 1)
    else if s.right <= s.left then (s.right, s.right)
    else
      var k := ScanBack(stabs, s.left + 1, s.right, ty);
      (k, s.right)
  }

  function Start(left: int, right: int, addr: Word): Search {
    Search(left, right, left, right, false, addr)
  }

  // ----- as the kernel runs it

  // The bounds that the search leaves in region_left and region_right.
  function Found(stabs: seq<Stab>, ty: nat, left: int, right: int, addr: Word): (int, int)
    requires 0 <= left && right < |stabs|
  {
    Finish(stabs, ty, Loop(stabs, ty, Start(left, right, addr)))
  }

  // Both inner loops: down to the last entry of the type, or to just before l.
  method Scan(stabs: array<Stab>, l: int, from: int, ty: nat) returns (m: int)
    requires 0 <= l <= from + 1 <= stabs.Length
    ensures m == ScanBack(stabs[..], l, from, ty)
  {
    m := from;
    while m >= l && stabs[m].nType != ty
      invariant l - 1 <= m <= from
      invariant ScanBack(stabs[..], l, m, ty) == ScanBack(stabs[..], l, from, ty)
    {
      m := m - 1;
    }
  }

  // One round of the loop.
  method Round(stabs: array<Stab>, ty: nat, s: Search) returns (s': Search)
    requires 0 <= s.l <= s.r < stabs.Length
    ensures s' == Probe(stabs[..], s, Middle(s), ScanBack(stabs[..], s.l, Middle(s), ty))
  {
    var trueM := (s.l + s.r) / 2;
    var m := Scan(stabs, s.l, trueM, ty);
    if m < s.l {  // nothing of the type down to l
      return s.(l := trueM + 1);
    }
    s' := s.(anyMatches := true);
    if stabs[m].nValue < s.addr {
      s' := s'.(left := m, l := trueM + 1);
    } else if stabs[m].nValue > s.addr {
      s' := s'.(right := m - 1, r := m - 1);
    } else {
      s' := s'.(left := m, l := m, addr := (s.addr + 4) % TWO32);
    }
  }

  method StabBinsearch(stabs: array<Stab>, regionLeft: int, regionRight: int, ty: nat, address: Word)
    returns (left: int, right: int)
    requires 0 <= regionLeft && regionRight < stabs.Length
    ensures (left, right) == Found(stabs[..], ty, regionLeft, regionRight, address)
  {
    var s := Start(regionLeft, regionRight, address);
    ghost var table, final := stabs[..], Loop(stabs[..], ty, s);
    while s.l <= s.r
      invariant InTable(table, s) && Loop(table, ty, s) == final
      decreases s.r - s.l, AtAddr(table, s)
    {
      LoopRound(table, ty, s);
      s := Round(stabs, ty, s);
    }
    LoopDone(table, ty, s);
    left, right := Close(stabs, ty, s);
  }

  // After the loop: the rightmost region containing the address.
  method Close(stabs: array<Stab>, ty: nat, s: Search) returns (left: int, right: int)
    requires 0 <= s.left && s.right < stabs.Length
    ensures (left, right) == Finish(stabs[..], ty, s)
  {
    if !s.anyMatches {
      return s.left, s.left - 1;
    }
    right := s.right;
    if s.right > s.left {
      left := Scan(stabs, s.left + 1, s.right, ty);
    } else {
      left := s.right;
    }
  }

  // ----- what the search finds

  // The entries of the type are strictly ordered by value.
  ghost predicate Ordered(stabs: seq<Stab>, lo: int, hi: int, ty: nat) {
    forall i, j :: lo <= i < j <= hi && Match(stabs, i, ty) && Match(stabs, j, ty) ==> stabs[i].nValue < stabs[j].nValue
  }

  // No entry of the type lies within the four bytes above the address.
  ghost predicate Room(stabs: seq<Stab>, l: int, r: int, ty: nat, a: Word) {
    forall j :: l <= j <= r && Match(stabs, j, ty) ==> !(a < stabs[j].nValue <= a + 4)
  }

  // If an entry has exactly the address, no other lies within the four bytes
  // above it, which the search passes over when it moves addr.
  ghost predicate RoomAbove(stabs: seq<Stab>, lo: int, hi: int, ty: nat, a: Word) {
    forall i :: lo <= i <= hi && Match(stabs, i, ty) && stabs[i].nValue == a ==>
      a + 4 < TWO32 && Room(stabs, lo, hi, ty, a)
  }

  // A matching entry at or below a.
  ghost predicate Low(stabs: seq<Stab>, ty: nat, a: Word, i: int) {
    Match(stabs, i, ty) && stabs[i].nValue <= a
  }

  // The state of the search: everything left of l is low, everything right of r is high.
  ghost predicate Bracketing(stabs: seq<Stab>, lo: int, hi: int, ty: nat, a: Word, s: Search) {
    && lo <= s.l <= s.r + 1 && s.r <= hi && s.right == s.r && hi < |stabs|
    && (s.addr == a || (s.addr == a + 4 && Room(stabs, s.l, s.r, ty, a)))
    && (!s.anyMatches ==> s.left == lo && s.r == hi && forall i :: lo <= i < s.l ==> !Match(stabs, i, ty))
    && (forall i :: lo <= i < s.l && Match(stabs, i, ty) ==> stabs[i].nValue <= a)
    && (forall i :: s.r < i <= hi && Match(stabs, i, ty) ==> stabs[i].nValue > a)
    && (s.r < hi ==> Match(stabs, s.r + 1, ty))
    && (s.anyMatches ==> exists i :: lo <= i <= hi && Match(stabs, i, ty))
    && lo <= s.left <= s.l
    && (s.left == lo || (Low(stabs, ty, a, s.left) && s.left <= s.r))
  }

  // The entry that a round finds, s.l - 1 if there is none.
  function Probed(stabs: seq<Stab>, ty: nat, s: Search): (m: int)
    requires InTable(stabs, s) && s.l <= s.r
    ensures s.l - 1 <= m <= Middle(s) <= s.r
    ensures m >= s.l ==> Match(stabs, m, ty)
    ensures forall i :: m < i <= Middle(s) ==> !Match(stabs, i, ty)
  {
    ScanBack(stabs, s.l, Middle(s), ty)
  }

  function Rounded(stabs: seq<Stab>, ty: nat, s: Search): Search
    requires InTable(stabs, s) && s.l <= s.r
  {
    Probe(stabs, s, Middle(s), Probed(stabs, ty, s))
  }

  predicate Exact(stabs: seq<Stab>, ty: nat, s: Search)
    requires InTable(stabs, s) && s.l <= s.r
  {
    Probed(stabs, ty, s) >= s.l && stabs[Probed(stabs, ty, s)].nValue == s.addr
  }

  // The round in which the search first meets an entry that has exactly the
  // address; its end if there is none.
  ghost function Hit(stabs: seq<Stab>, ty: nat, s: Search): (h: Search)
    requires InTable(stabs, s)
    ensures InTable(stabs, h) && h.addr == s.addr
    ensures h.l <= h.r ==> Exact(stabs, ty, h)
    decreases s.r - s.l
  {
    if s.l > s.r || Exact(stabs, ty, s) then s else Hit(stabs, ty, Rounded(stabs, ty, s))
  }

  // There is room in what is left of the region when the exact match is met.
  ghost predicate RoomAtHit(stabs: seq<Stab>, ty: nat, a: Word, h: Search)
    requires InTable(stabs, h) && h.addr == a
  {
    h.l <= h.r && Exact(stabs, ty, h) ==> a + 4 < TWO32 && Room(stabs, Probed(stabs, ty, h), h.r, ty, a)
  }

  lemma ProbeBrackets(stabs: seq<Stab>, lo: int, hi: int, ty: nat, a: Word, s: Search, t: int, m: int)
    requires 0 <= lo && Bracketing(stabs, lo, hi, ty, a, s) && s.l <= t <= s.r
    requires Ordered(stabs, lo, hi, ty)
    requires s.l - 1 <= m <= t && (m >= s.l ==> Match(stabs, m, ty)) && forall i :: m < i <= t ==> !Match(stabs, i, ty)
    requires m >= s.l && stabs[m].nValue == s.addr == a ==> a + 4 < TWO32 && Room(stabs, m, s.r, ty, a)
    ensures Bracketing(stabs, lo, hi, ty, a, Probe(stabs, s, t, m))
  {
    if m < s.l {
      NoMatch(stabs, lo, hi, ty, a, s, t);
    } else if stabs[m].nValue > s.addr {
      HighMatch(stabs, lo, hi, ty, a, s, m);
    } else {
      LowMatch(stabs, lo, hi, ty, a, s, t, m);
    }
  }

  lemma NoMatch(stabs: seq<Stab>, lo: int, hi: int, ty: nat, a: Word, s: Search, t: int)
    requires 0 <= lo && Bracketing(stabs, lo, hi, ty, a, s) && s.l <= t <= s.r
    requires forall i :: s.l <= i <= t ==> !Match(stabs, i, ty)
    ensures Bracketing(stabs, lo, hi, ty, a, s.(l := t + 1))
  {
  }

  lemma HighMatch(stabs: seq<Stab>, lo: int, hi: int, ty: nat, a: Word, s: Search, m: int)
    requires 0 <= lo && Bracketing(stabs, lo, hi, ty, a, s) && s.l <= m <= s.r && Ordered(stabs, lo, hi, ty)
    requires Match(stabs, m, ty) && stabs[m].nValue > s.addr
    ensures Bracketing(stabs, lo, hi, ty, a, s.(right := m - 1, r := m - 1, anyMatches := true))
  {
    if s.left != lo { assert Low(stabs, ty, a, s.left) && s.left != m; }
  }

  lemma LowMatch(stabs: seq<Stab>, lo: int, hi: int, ty: nat, a: Word, s: Search, t: int, m: int)
    requires 0 <= lo && Bracketing(stabs, lo, hi, ty, a, s) && s.l <= m <= t <= s.r
    requires Ordered(stabs, lo, hi, ty)
    requires stabs[m].nValue == s.addr == a ==> a + 4 < TWO32 && Room(stabs, m, s.r, ty, a)
    requires Match(stabs, m, ty) && stabs[m].nValue <= s.addr && forall i :: m < i <= t ==> !Match(stabs, i, ty)
    ensures stabs[m].nValue < s.addr ==>
      Bracketing(stabs, lo, hi, ty, a, s.(left := m, l := t + 1, anyMatches := true))
    ensures stabs[m].nValue == s.addr ==>
      Bracketing(stabs, lo, hi, ty, a, s.(left := m, l := m, addr := (s.addr + 4) % TWO32, anyMatches := true))
  {
    assert stabs[m].nValue <= a;
    assert Low(stabs, ty, a, m);
  }

  lemma {:induction false} LoopBrackets(stabs: seq<Stab>, lo: int, hi: int, ty: nat, a: Word, s: Search)
    requires 0 <= lo && Bracketing(stabs, lo, hi, ty, a, s) && InTable(stabs, s)
    requires Ordered(stabs, lo, hi, ty) && (s.addr == a ==> RoomAtHit(stabs, ty, a, Hit(stabs, ty, s)))
    ensures Bracketing(stabs, lo, hi, ty, a, Loop(stabs, ty, s)) && Loop(stabs, ty, s).l > Loop(stabs, ty, s).r
    decreases s.r - s.l, AtAddr(stabs, s)
  {
    if s.l <= s.r {
      LoopRound(stabs, ty, s);
      RoundBrackets(stabs, lo, hi, ty, a, s);
      LoopBrackets(stabs, lo, hi, ty, a, Rounded(stabs, ty, s));
    }
  }

  // A round keeps the bracket, and the hit still to come.
  lemma RoundBrackets(stabs: seq<Stab>, lo: int, hi: int, ty: nat, a: Word, s: Search)
    requires 0 <= lo && Bracketing(stabs, lo, hi, ty, a, s) && InTable(stabs, s) && s.l <= s.r
    requires Ordered(stabs, lo, hi, ty) && (s.addr == a ==> RoomAtHit(stabs, ty, a, Hit(stabs, ty, s)))
    ensures var s' := Rounded(stabs, ty, s);
      && InTable(stabs, s') && Bracketing(stabs, lo, hi, ty, a, s')
      && (s'.addr == a ==> RoomAtHit(stabs, ty, a, Hit(stabs, ty, s')))
  {
    HitRound(stabs, ty, a, s);
    ProbeBrackets(stabs, lo, hi, ty, a, s, Middle(s), Probed(stabs, ty, s));
  }

  lemma HitRound(stabs: seq<Stab>, ty: nat, a: Word, s: Search)
    requires InTable(stabs, s) && s.l <= s.r
    requires s.addr == a ==> RoomAtHit(stabs, ty, a, Hit(stabs, ty, s))
    ensures InTable(stabs, Rounded(stabs, ty, s))
    ensures !Exact(stabs, ty, s) ==> Rounded(stabs, ty, s).addr == s.addr
    ensures Exact(stabs, ty, s) ==> Rounded(stabs, ty, s).addr == (s.addr + 4) % TWO32 != s.addr
    ensures s.addr == a && !Exact(stabs, ty, s) ==> RoomAtHit(stabs, ty, a, Hit(stabs, ty, Rounded(stabs, ty, s)))
    ensures s.addr == a && Exact(stabs, ty, s) ==> a + 4 < TWO32 && Room(stabs, Probed(stabs, ty, s), s.r, ty, a)
  {
  }

  // ----- the reference: a linear scan

  // The last matching entry at or below a, lo - 1 if there is none.
  ghost function LastLow(stabs: seq<Stab>, lo: int, hi: int, ty: nat, a: Word): (b: int)
    ensures lo <= hi ==> lo - 1 <= b <= hi
    ensures lo <= b ==> b <= hi && Low(stabs, ty, a, b)
    ensures forall i :: b < i <= hi && lo <= i ==> !Low(stabs, ty, a, i)
    decreases hi - lo
  {
    if hi < lo then lo - 1 else if Low(stabs, ty, a, hi) then hi else LastLow(stabs, lo, hi - 1, ty, a)
  }

  // The first matching entry from lo on, hi + 1 if there is none.
  ghost function NextMatch(stabs: seq<Stab>, lo: int, hi: int, ty: nat): (n: int)
    ensures lo <= hi + 1 ==> lo <= n <= hi + 1
    ensures lo <= n <= hi ==> Match(stabs, n, ty)
    ensures forall i :: lo <= i < n && i <= hi ==> !Match(stabs, i, ty)
    decreases hi - lo
  {
    if hi < lo then hi + 1 else if Match(stabs, lo, ty) then lo else NextMatch(stabs, lo + 1, hi, ty)
  }

  ghost function LinearScan(stabs: seq<Stab>, lo: int, hi: int, ty: nat, a: Word): (int, int) {
    var b, n := LastLow(stabs, lo, hi, ty, a), NextMatch(stabs, lo, hi, ty);
    if n > hi then (lo, lo - 1)  // no entry of the type
    else if b >= lo then (b, NextMatch(stabs, b + 1, hi, ty) - 1)
    else (if n == lo then n - 1 else lo, n - 1)  // all entries of the type are above a
  }

  // The binary search leaves the bounds that a linear scan finds.
  lemma FoundIsLinearScan(stabs: seq<Stab>, lo: int, hi: int, ty: nat, a: Word)
    requires 0 <= lo <= hi + 1 && hi < |stabs|
    requires Ordered(stabs, lo, hi, ty) && RoomAtHit(stabs, ty, a, Hit(stabs, ty, Start(lo, hi, a)))
    ensures Found(stabs, ty, lo, hi, a) == LinearScan(stabs, lo, hi, ty, a)
  {
    var s0 := Start(lo, hi, a);
    LoopBrackets(stabs, lo, hi, ty, a, s0);
    EndIsLinearScan(stabs, lo, hi, ty, a, Loop(stabs, ty, s0));
  }

  // Room above the address in the whole region is enough.
  lemma {:induction false} RoomAboveSuffices(stabs: seq<Stab>, lo: int, hi: int, ty: nat, a: Word, s: Search)
    requires 0 <= lo <= s.l && s.r <= hi < |stabs| && s.addr == a && RoomAbove(stabs, lo, hi, ty, a)
    ensures RoomAtHit(stabs, ty, a, Hit(stabs, ty, s))
    decreases s.r - s.l
  {
    if s.l <= s.r && !Exact(stabs, ty, s) { RoomAboveSuffices(stabs, lo, hi, ty, a, Rounded(stabs, ty, s)); }
  }

  lemma EndIsLinearScan(stabs: seq<Stab>, lo: int, hi: int, ty: nat, a: Word, s: Search)
    requires 0 <= lo <= hi + 1 && hi < |stabs| && Ordered(stabs, lo, hi, ty)
    requires Bracketing(stabs, lo, hi, ty, a, s) && s.l > s.r
    ensures 0 <= s.left && s.right < |stabs|
    ensures Finish(stabs, ty, s) == LinearScan(stabs, lo, hi, ty, a)
  {
    if LastLow(stabs, lo, hi, ty, a) >= lo {
      EndAtLow(stabs, lo, hi, ty, a, s);
    } else if s.anyMatches {
      EndAbove(stabs, lo, hi, ty, a, s);
    } else {
      EndEmpty(stabs, lo, hi, ty, a, s);
    }
  }

  lemma EndEmpty(stabs: seq<Stab>, lo: int, hi: int, ty: nat, a: Word, s: Search)
    requires 0 <= lo <= hi + 1 && hi < |stabs|
    requires Bracketing(stabs, lo, hi, ty, a, s) && s.l > s.r && !s.anyMatches
    ensures NextMatch(stabs, lo, hi, ty) > hi && Finish(stabs, ty, s) == (lo, lo - 1)
  {
  }

  // Of the entries of the type, those up to r are the ones at or below the address.
  lemma EndSplits(stabs: seq<Stab>, lo: int, hi: int, ty: nat, a: Word, s: Search)
    requires Bracketing(stabs, lo, hi, ty, a, s) && s.l > s.r
    ensures forall i :: lo <= i <= hi && Match(stabs, i, ty) ==> (Low(stabs, ty, a, i) <==> i <= s.r)
  {
  }

  // The last scan stops at the last entry of the type in the region.
  lemma FinishAt(stabs: seq<Stab>, ty: nat, s: Search, b: int)
    requires 0 <= s.left <= b <= s.right < |stabs| && s.anyMatches && Match(stabs, b, ty)
    requires forall i :: b < i <= s.right ==> !Match(stabs, i, ty)
    ensures Finish(stabs, ty, s) == (b, s.right)
  {
  }

  lemma EndAtLow(stabs: seq<Stab>, lo: int, hi: int, ty: nat, a: Word, s: Search)
    requires 0 <= lo <= hi + 1 && hi < |stabs|
    requires Bracketing(stabs, lo, hi, ty, a, s) && s.l > s.r
    requires LastLow(stabs, lo, hi, ty, a) >= lo
    ensures s.anyMatches && NextMatch(stabs, lo, hi, ty) <= hi
    ensures var b := LastLow(stabs, lo, hi, ty, a);
      && b <= s.right && NextMatch(stabs, b + 1, hi, ty) == s.right + 1
      && Finish(stabs, ty, s) == (b, s.right)
  {
    var b := LastLow(stabs, lo, hi, ty, a);
    EndSplits(stabs, lo, hi, ty, a, s);
    assert lo <= b <= s.r;
    FinishAt(stabs, ty, s, b);
  }

  lemma EndAbove(stabs: seq<Stab>, lo: int, hi: int, ty: nat, a: Word, s: Search)
    requires 0 <= lo <= hi + 1 && hi < |stabs|
    requires Bracketing(stabs, lo, hi, ty, a, s) && s.l > s.r && s.anyMatches
    requires LastLow(stabs, lo, hi, ty, a) < lo
    ensures NextMatch(stabs, lo, hi, ty) == s.right + 1 <= hi
    ensures Finish(stabs, ty, s) == (if s.right < lo then s.right else lo, s.right)
  {
    EndSplits(stabs, lo, hi, ty, a, s);
  }

  // Without room above an exact match the search may run past it: any two
  // entries at most four bytes apart make a table where it returns the second
  // for the address of the first.
  lemma RoomIsNeeded(a: Word, b: Word, ty: nat)
    requires a < b <= a + 4 && a + 8 < TWO32
    ensures var stabs := [Stab(ty, a), Stab(ty, b)];
      && Ordered(stabs, 0, 1, ty) && !RoomAbove(stabs, 0, 1, ty, a)
      && Found(stabs, ty, 0, 1, a) == (1, 1)
      && LinearScan(stabs, 0, 1, ty, a) == (0, 0)
  {
    var stabs := [Stab(ty, a), Stab(ty, b)];
    assert Match(stabs, 0, ty) && Match(stabs, 1, ty) && a < stabs[1].nValue <= a + 4;
    RunsPast(stabs, a, ty);
    assert NextMatch(stabs, 0, 1, ty) == 0 && NextMatch(stabs, 1, 1, ty) == 1;
    assert LastLow(stabs, 0, 1, ty, a) == LastLow(stabs, 0, 0, ty, a) == 0;
  }

  lemma RunsPast(stabs: seq<Stab>, a: Word, ty: nat)
    requires |stabs| == 2 && Match(stabs, 0, ty) && Match(stabs, 1, ty) && a + 8 < TWO32
    requires stabs[0].nValue == a < stabs[1].nValue <= a + 4
    ensures Found(stabs, ty, 0, 1, a) == (1, 1)
  {
    LoopRound(stabs, ty, Start(0, 1, a));
    LoopRound(stabs, ty, Search(0, 1, 0, 1, true, a + 4));
    LoopRound(stabs, ty, Search(1, 1, 0, 1, true, a + 4));
    if stabs[1].nValue == a + 4 {
      LoopRound(stabs, ty, Search(1, 1, 1, 1, true, a + 8));
      LoopDone(stabs, ty, Search(2, 1, 1, 1, true, a + 8));
    } else {
      LoopDone(stabs, ty, Search(2, 1, 1, 1, true, a + 4));
    }
  }

  // The test that the caller makes on the bounds, left <= right, tells whether
  // some entry of the type contains the address, except when the region has
  // entries of the type but all of them lie above it.
  lemma BoundsTellContained(stabs: seq<Stab>, lo: int, hi: int, ty: nat, a: Word)
    requires 0 <= lo <= hi + 1 && hi < |stabs|
    requires Ordered(stabs, lo, hi, ty) && RoomAbove(stabs, lo, hi, ty, a)
    ensures var (left, right) := Found(stabs, ty, lo, hi, a);
      var contained := exists i :: lo <= i <= hi && Low(stabs, ty, a, i);
      var present := exists i :: lo <= i <= hi && Match(stabs, i, ty);
      ((left <= right) == contained) <==> (contained || !present)
  {
    RoomAboveSuffices(stabs, lo, hi, ty, a, Start(lo, hi, a));
    FoundIsLinearScan(stabs, lo, hi, ty, a);
    var b, n := LastLow(stabs, lo, hi, ty, a), NextMatch(stabs, lo, hi, ty);
    if b >= lo { assert Low(stabs, ty, a, b); }
  }
}
