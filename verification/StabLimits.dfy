/**
 Exactly when the search of module Stabs finds what a linear scan finds.  After
 an exact match the kernel adds 4 to addr and keeps looking to the right; entries
 of the type within those four bytes mislead it if they are still in range then.
 */
module StabLimits {
  import opened Words
  import opened Stabs

  // The exact match is what a linear scan finds.
  lemma ExactScan(stabs: seq<Stab>, lo: int, hi: int, ty: nat, a: Word, i: int)
    requires 0 <= lo <= i <= hi < |stabs| && Ordered(stabs, lo, hi, ty)
    requires Match(stabs, i, ty) && stabs[i].nValue == a
    ensures LinearScan(stabs, lo, hi, ty, a) == (i, NextMatch(stabs, i + 1, hi, ty) - 1)
  {
    var b := LastLow(stabs, lo, hi, ty, a);
    assert Low(stabs, ty, a, i);
    assert b == i;
  }

  // The bounds with which the search ends from s.
  ghost function Ending(stabs: seq<Stab>, ty: nat, s: Search): (int, int)
    requires InTable(stabs, s) && 0 <= s.left && s.right < |stabs|
  {
    Finish(stabs, ty, Loop(stabs, ty, s))
  }

  lemma EndingRound(stabs: seq<Stab>, ty: nat, s: Search)
    requires InTable(stabs, s) && s.l <= s.r && 0 <= s.left && s.right < |stabs|
    ensures var s' := Rounded(stabs, ty, s);
      && InTable(stabs, s') && 0 <= s'.left && s'.right < |stabs|
      && Ending(stabs, ty, s) == Ending(stabs, ty, s')
      && (s'.r - s'.l < s.r - s.l || (s'.r - s'.l == s.r - s.l && AtAddr(stabs, s') < AtAddr(stabs, s)))
  {
    LoopRound(stabs, ty, s);
  }

  lemma EndingDone(stabs: seq<Stab>, ty: nat, s: Search)
    requires InTable(stabs, s) && s.l > s.r && 0 <= s.left && s.right < |stabs| && s.anyMatches
    ensures Ending(stabs, ty, s).1 == s.right
    ensures s.right <= s.left ==> Ending(stabs, ty, s).0 == s.right
  {
    LoopDone(stabs, ty, s);
  }

  // Once addr has wrapped, every entry from l on is above it.
  ghost predicate Wrapped(stabs: seq<Stab>, ty: nat, s: Search) {
    && InTable(stabs, s) && s.left == s.l && s.right == s.r >= s.l - 1 && s.anyMatches
    && Match(stabs, s.l, ty)
    && forall k :: s.l <= k <= s.r && Match(stabs, k, ty) ==> stabs[k].nValue > s.addr
  }

  lemma {:induction false} WrappedEnds(stabs: seq<Stab>, ty: nat, s: Search)
    requires Wrapped(stabs, ty, s)
    ensures Ending(stabs, ty, s) == (s.l - 1, s.l - 1)
    decreases s.r - s.l
  {
    if s.l > s.r {
      EndingDone(stabs, ty, s);
    } else {
      EndingRound(stabs, ty, s);
      WrappedEnds(stabs, ty, Rounded(stabs, ty, s));
    }
  }

  // The next entry of the type is the very next one, exactly four bytes above,
  // and there addr wraps.
  predicate WrapsAtNext(stabs: seq<Stab>, ty: nat, a: Word, i: int) {
    Match(stabs, i + 1, ty) && stabs[i + 1].nValue == a + 4 && a + 8 >= TWO32
  }

  ghost predicate FourAbove(stabs: seq<Stab>, lo: int, hi: int, ty: nat, a: Word, i: int, s: Search) {
    && 0 <= lo <= i <= s.l <= s.r <= hi && InTable(stabs, s) && hi < |stabs| && s.right == s.r && s.anyMatches
    && s.addr == a + 4 && Ordered(stabs, lo, hi, ty)
    && Match(stabs, i, ty) && stabs[i].nValue == a
  }

  // Then the search stops at the exact match after all.
  lemma {:induction false} LuckyEnds(stabs: seq<Stab>, lo: int, hi: int, ty: nat, a: Word, i: int, s: Search)
    requires FourAbove(stabs, lo, hi, ty, a, i, s) && WrapsAtNext(stabs, ty, a, i)
    requires s.l <= i + 1 <= s.r && 0 <= s.left
    ensures Ending(stabs, ty, s) == (i, i)
    decreases s.r - s.l
  {
    EndingRound(stabs, ty, s);
    LuckyRound(stabs, lo, hi, ty, a, i, s);
    if Exact(stabs, ty, s) {
      WrappedEnds(stabs, ty, Rounded(stabs, ty, s));
    } else {
      LuckyEnds(stabs, lo, hi, ty, a, i, Rounded(stabs, ty, s));
    }
  }

  lemma LuckyRound(stabs: seq<Stab>, lo: int, hi: int, ty: nat, a: Word, i: int, s: Search)
    requires FourAbove(stabs, lo, hi, ty, a, i, s) && WrapsAtNext(stabs, ty, a, i)
    requires s.l <= i + 1 <= s.r
    ensures var s' := Rounded(stabs, ty, s);
      if Exact(stabs, ty, s) then s'.l == i + 1 && Wrapped(stabs, ty, s')
      else FourAbove(stabs, lo, hi, ty, a, i, s') && s'.l <= i + 1 <= s'.r && s'.r - s'.l < s.r - s.l
  {
    var m := Probed(stabs, ty, s);
    assert Match(stabs, s.l, ty);
    assert s.l <= m;
    if Exact(stabs, ty, s) { assert m == i + 1; }
  }

  // An entry j above i is still in range, no farther from a than addr.
  ghost predicate Misled(stabs: seq<Stab>, lo: int, hi: int, ty: nat, a: Word, i: int, j: int, s: Search) {
    && 0 <= lo <= i <= s.l && i < j <= s.r <= hi < |stabs| && s.right == s.r && s.anyMatches && i <= s.left
    && a + 4 <= s.addr && Ordered(stabs, lo, hi, ty)
    && Match(stabs, i, ty) && stabs[i].nValue == a
    && Match(stabs, j, ty) && stabs[j].nValue <= a + 4
  }

  // The search runs past the exact match, except where addr wraps at the next entry.
  lemma {:induction false} MisledEnds(stabs: seq<Stab>, lo: int, hi: int, ty: nat, a: Word, i: int, j: int, s: Search)
    requires Misled(stabs, lo, hi, ty, a, i, j, s) && InTable(stabs, s) && !WrapsAtNext(stabs, ty, a, i)
    ensures Ending(stabs, ty, s) != (i, NextMatch(stabs, i + 1, hi, ty) - 1)
    decreases s.r - s.l, AtAddr(stabs, s)
  {
    if s.l > s.r {
      EndingDone(stabs, ty, s);
    } else {
      EndingRound(stabs, ty, s);
      MisledRound(stabs, lo, hi, ty, a, i, j, s);
      if Exact(stabs, ty, s) && s.addr + 4 >= TWO32 {
        WrappedEnds(stabs, ty, Rounded(stabs, ty, s));
        NextWraps(stabs, lo, hi, ty, a, i, j, s, Probed(stabs, ty, s));
      } else {
        MisledEnds(stabs, lo, hi, ty, a, i, j, Rounded(stabs, ty, s));
      }
    }
  }

  lemma MisledRound(stabs: seq<Stab>, lo: int, hi: int, ty: nat, a: Word, i: int, j: int, s: Search)
    requires Misled(stabs, lo, hi, ty, a, i, j, s) && InTable(stabs, s) && s.l <= s.r
    ensures var s' := Rounded(stabs, ty, s);
      if Exact(stabs, ty, s) && s.addr + 4 >= TWO32 then s'.l == Probed(stabs, ty, s) && Wrapped(stabs, ty, s')
      else Misled(stabs, lo, hi, ty, a, i, j, s')
  {
  }

  // Had addr wrapped at the entry w just after i, w would be the next entry.
  lemma NextWraps(stabs: seq<Stab>, lo: int, hi: int, ty: nat, a: Word, i: int, j: int, s: Search, w: int)
    requires Misled(stabs, lo, hi, ty, a, i, j, s) && s.l <= w <= s.r
    requires Match(stabs, w, ty) && stabs[w].nValue == s.addr && s.addr + 4 >= TWO32
    ensures (w - 1, w - 1) == (i, NextMatch(stabs, i + 1, hi, ty) - 1) ==> WrapsAtNext(stabs, ty, a, i)
  {
  }

  predicate Lucky(stabs: seq<Stab>, ty: nat, a: Word, h: Search)
    requires InTable(stabs, h) && h.l <= h.r
  {
    Probed(stabs, ty, h) < h.r && WrapsAtNext(stabs, ty, a, Probed(stabs, ty, h))
  }

  ghost predicate Struck(stabs: seq<Stab>, lo: int, hi: int, ty: nat, a: Word, h: Search) {
    && 0 <= lo <= h.l <= h.r <= hi < |stabs| && h.right == h.r && 0 <= h.left && h.addr == a
    && Exact(stabs, ty, h)
  }

  lemma AfterHit(stabs: seq<Stab>, lo: int, hi: int, ty: nat, a: Word, h: Search)
    requires Struck(stabs, lo, hi, ty, a, h) && Ordered(stabs, lo, hi, ty)
    ensures var i := Probed(stabs, ty, h);
      && Match(stabs, i, ty) && stabs[i].nValue == a && h.l <= i
      && Rounded(stabs, ty, h) == Search(i, h.r, i, h.r, true, (a + 4) % TWO32)
      && (a + 4 >= TWO32 ==> Wrapped(stabs, ty, Rounded(stabs, ty, h)))
      && (a + 4 < TWO32 && !RoomAtHit(stabs, ty, a, h) ==>
            exists j :: i < j <= h.r && Match(stabs, j, ty) && stabs[j].nValue <= a + 4)
  {
  }

  lemma StruckIsMisled(stabs: seq<Stab>, lo: int, hi: int, ty: nat, a: Word, h: Search, j: int)
    requires Struck(stabs, lo, hi, ty, a, h) && Ordered(stabs, lo, hi, ty) && a + 4 < TWO32
    requires Probed(stabs, ty, h) < j <= h.r && Match(stabs, j, ty) && stabs[j].nValue <= a + 4
    ensures Misled(stabs, lo, hi, ty, a, Probed(stabs, ty, h), j, Rounded(stabs, ty, h))
    ensures FourAbove(stabs, lo, hi, ty, a, Probed(stabs, ty, h), Rounded(stabs, ty, h))
  {
    AfterHit(stabs, lo, hi, ty, a, h);
  }

  // The round of the exact match, when entries are in the way.
  lemma CrowdedEnds(stabs: seq<Stab>, lo: int, hi: int, ty: nat, a: Word, h: Search)
    requires Struck(stabs, lo, hi, ty, a, h) && Ordered(stabs, lo, hi, ty) && !RoomAtHit(stabs, ty, a, h)
    ensures var i := Probed(stabs, ty, h);
      Ending(stabs, ty, h) == (i, NextMatch(stabs, i + 1, hi, ty) - 1) <==> Lucky(stabs, ty, a, h)
  {
    EndingRound(stabs, ty, h);
    AfterHit(stabs, lo, hi, ty, a, h);
    if a + 4 >= TWO32 {
      WrappedEnds(stabs, ty, Rounded(stabs, ty, h));
    } else {
      CrowdedRound(stabs, lo, hi, ty, a, h, Probed(stabs, ty, h), Rounded(stabs, ty, h));
    }
  }

  lemma CrowdedRound(stabs: seq<Stab>, lo: int, hi: int, ty: nat, a: Word, h: Search, i: int, s: Search)
    requires Struck(stabs, lo, hi, ty, a, h) && Ordered(stabs, lo, hi, ty) && !RoomAtHit(stabs, ty, a, h) && a + 4 < TWO32
    requires i == Probed(stabs, ty, h) && s == Rounded(stabs, ty, h)
    ensures InTable(stabs, s) && 0 <= s.left && s.right < |stabs|
    ensures Ending(stabs, ty, s) == (i, NextMatch(stabs, i + 1, hi, ty) - 1) <==> i < h.r && WrapsAtNext(stabs, ty, a, i)
  {
    AfterHit(stabs, lo, hi, ty, a, h);
    var j :| i < j <= h.r && Match(stabs, j, ty) && stabs[j].nValue <= a + 4;
    StruckIsMisled(stabs, lo, hi, ty, a, h, j);
    if WrapsAtNext(stabs, ty, a, i) {
      LuckyEnds(stabs, lo, hi, ty, a, i, s);
      assert NextMatch(stabs, i + 1, hi, ty) == i + 1;
    } else {
      MisledEnds(stabs, lo, hi, ty, a, i, j, s);
    }
  }

  // On an ordered table the search leaves the bounds that a linear scan finds
  // if and only if there is room when it meets the exact match, or the one entry
  // in the way is met exactly and makes addr wrap.
  lemma FoundIsLinearScanIff(stabs: seq<Stab>, lo: int, hi: int, ty: nat, a: Word)
    requires 0 <= lo <= hi + 1 && hi < |stabs| && Ordered(stabs, lo, hi, ty)
    ensures var h := Hit(stabs, ty, Start(lo, hi, a));
      Found(stabs, ty, lo, hi, a) == LinearScan(stabs, lo, hi, ty, a) <==>
        RoomAtHit(stabs, ty, a, h) || Lucky(stabs, ty, a, h)
  {
    if RoomAtHit(stabs, ty, a, Hit(stabs, ty, Start(lo, hi, a))) {
      FoundIsLinearScan(stabs, lo, hi, ty, a);
    } else {
      StartBrackets(stabs, lo, hi, ty, a);
      NoRoomAtHit(stabs, lo, hi, ty, a, Start(lo, hi, a));
      assert Found(stabs, ty, lo, hi, a) == Ending(stabs, ty, Start(lo, hi, a));
    }
  }

  lemma {:induction false} NoRoomAtHit(stabs: seq<Stab>, lo: int, hi: int, ty: nat, a: Word, s: Search)
    requires 0 <= lo && Bracketing(stabs, lo, hi, ty, a, s) && InTable(stabs, s) && s.addr == a
    requires Ordered(stabs, lo, hi, ty) && !RoomAtHit(stabs, ty, a, Hit(stabs, ty, s))
    ensures var h := Hit(stabs, ty, s);
      Ending(stabs, ty, s) == LinearScan(stabs, lo, hi, ty, a) <==> Lucky(stabs, ty, a, h)
    decreases s.r - s.l
  {
    if s.l <= s.r && !Exact(stabs, ty, s) {
      EndingRound(stabs, ty, s);
      ProbeBrackets(stabs, lo, hi, ty, a, s, Middle(s), Probed(stabs, ty, s));
      NoRoomAtHit(stabs, lo, hi, ty, a, Rounded(stabs, ty, s));
    } else {
      ScanOfHit(stabs, lo, hi, ty, a, s);
      CrowdedEnds(stabs, lo, hi, ty, a, s);
    }
  }

  lemma StartBrackets(stabs: seq<Stab>, lo: int, hi: int, ty: nat, a: Word)
    requires 0 <= lo <= hi + 1 && hi < |stabs|
    ensures Bracketing(stabs, lo, hi, ty, a, Start(lo, hi, a))
  {
  }

  lemma ScanOfHit(stabs: seq<Stab>, lo: int, hi: int, ty: nat, a: Word, h: Search)
    requires 0 <= lo && Bracketing(stabs, lo, hi, ty, a, h) && InTable(stabs, h) && h.addr == a
    requires h.l <= h.r && Exact(stabs, ty, h) && Ordered(stabs, lo, hi, ty)
    ensures Struck(stabs, lo, hi, ty, a, h)
    ensures LinearScan(stabs, lo, hi, ty, a) ==
      (Probed(stabs, ty, h), NextMatch(stabs, Probed(stabs, ty, h) + 1, hi, ty) - 1)
  {
    StruckAt(stabs, lo, hi, ty, a, h);
    AfterHit(stabs, lo, hi, ty, a, h);
    ExactScan(stabs, lo, hi, ty, a, Probed(stabs, ty, h));
  }

  lemma StruckAt(stabs: seq<Stab>, lo: int, hi: int, ty: nat, a: Word, h: Search)
    requires 0 <= lo && Bracketing(stabs, lo, hi, ty, a, h) && InTable(stabs, h) && h.addr == a
    requires h.l <= h.r && Exact(stabs, ty, h)
    ensures Struck(stabs, lo, hi, ty, a, h)
  {
  }
}
