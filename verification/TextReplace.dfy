/** The text-editing specification behind String::replace (WString.cpp:564-605): the
    leftmost, non-overlapping replacement that the sizing pass counts, the right-to-left
    walk that the growing mode performs, and the exact condition under which they agree. */
module TextReplace {

  predicate OccursAt(s: string, find: string, i: int) {
    0 <= i && i + |find| <= |s| && forall x | 0 <= x < |find| :: s[i + x] == find[x]
  }

  predicate NoNul(s: string) {
    forall i | 0 <= i < |s| :: s[i] != '\0'
  }

  /** Scan from the left; at a match emit the replacement and continue behind the match. */
  function ReplaceAll(s: string, find: string, rep: string): string
    requires |find| > 0
  {
    if |s| < |find| then s
    else if OccursAt(s, find, 0) then rep + ReplaceAll(s[|find|..], find, rep)
    else [s[0]] + ReplaceAll(s[1..], find, rep)
  }

  /** The greatest start of an occurrence that is at most `bound`, or -1. */
  function LastAtMost(s: string, find: string, bound: int): (i: int)
    ensures -1 <= i
    ensures i >= 0 ==> i <= bound && OccursAt(s, find, i)
    ensures forall j | i < j <= bound :: !OccursAt(s, find, j)
    decreases bound + 1
  {
    if bound < 0 then -1
    else if OccursAt(s, find, bound) then bound
    else LastAtMost(s, find, bound - 1)
  }

  /** The growing mode: replace the last match that starts at or before `bound`, then
      look again strictly before it, in the edited text. */
  function WalkBack(s: string, find: string, rep: string, bound: int): string
    decreases bound + 1
  {
    var i := LastAtMost(s, find, bound);
    if i < 0 then s
    else WalkBack(s[..i] + rep + s[i + |find|..], find, rep, i - 1)
  }

  /** The last `k` characters of `find` are the first `k` of `text`. */
  predicate SuffixIsPrefix(find: string, text: string, k: nat) {
    k <= |find| && k <= |text| && forall x | 0 <= x < k :: find[|find| - k + x] == text[x]
  }

  /** No proper non-empty suffix of `find` is also a prefix of `text`. */
  predicate NoSuffixIsPrefixOf(find: string, text: string) {
    forall k | 0 < k < |find| :: !SuffixIsPrefix(find, text, k)
  }

  /** What a caller can check before growing: matches neither overlap each other nor
      spill into a replacement text that is already in place. */
  predicate Separable(find: string, rep: string) {
    NoSuffixIsPrefixOf(find, find) && NoSuffixIsPrefixOf(find, rep)
  }

  lemma Regroup(a: string, b: string, c: string, d: string)
    ensures a + (b + c + d) == (a + b) + c + d
  {
  }

  // ---------------------------------------------------------------- left-to-right facts

  lemma {:induction false} ReplaceAllNone(s: string, find: string, rep: string)
    requires |find| > 0
    requires forall i | 0 <= i < |s| :: !OccursAt(s, find, i)
    ensures ReplaceAll(s, find, rep) == s
    decreases |s|
  {
    if |s| >= |find| {
      assert !OccursAt(s, find, 0);
      forall i | 0 <= i < |s[1..]| ensures !OccursAt(s[1..], find, i) {
        assert !OccursAt(s, find, i + 1);
        if i + |find| <= |s| - 1 { assert s[1..][i..i + |find|] == s[i + 1..i + 1 + |find|]; }
      }
      ReplaceAllNone(s[1..], find, rep);
    }
  }

  /** At most one match fits into fewer than 2|find| characters. */
  lemma {:induction false} ReplaceAllShort(s: string, find: string, rep: string)
    requires 0 < |find| <= |rep| && |s| < 2 * |find|
    ensures |ReplaceAll(s, find, rep)| <= |s| + |rep| - |find|
    decreases |s|
  {
    if |s| >= |find| && !OccursAt(s, find, 0) {
      ReplaceAllShort(s[1..], find, rep);
    }
  }

  // ---------------------------------------------------------------- right-to-left facts

  lemma {:induction false} WalkBackGrows(s: string, find: string, rep: string, bound: int)
    requires |find| <= |rep|
    ensures var d := if LastAtMost(s, find, bound) >= 0 then |rep| - |find| else 0;
            |WalkBack(s, find, rep, bound)| >= |s| + d
    decreases bound + 1
  {
    var i := LastAtMost(s, find, bound);
    if i >= 0 {
      WalkBackGrows(s[..i] + rep + s[i + |find|..], find, rep, i - 1);
    }
  }

  /** One round of the walk. */
  lemma WalkBackStep(s: string, find: string, rep: string, bound: int)
    ensures var i := LastAtMost(s, find, bound);
            WalkBack(s, find, rep, bound) ==
            if i < 0 then s else WalkBack(s[..i] + rep + s[i + |find|..], find, rep, i - 1)
  {
  }

  lemma {:induction false} WalkBackNoNul(s: string, find: string, rep: string, bound: int)
    requires NoNul(s) && NoNul(rep)
    ensures NoNul(WalkBack(s, find, rep, bound))
    decreases bound + 1
  {
    var i := LastAtMost(s, find, bound);
    if i >= 0 {
      WalkBackNoNul(s[..i] + rep + s[i + |find|..], find, rep, i - 1);
    }
  }

  lemma {:induction false} ReplaceAllNoNul(s: string, find: string, rep: string)
    requires |find| > 0 && NoNul(s) && NoNul(rep)
    ensures NoNul(ReplaceAll(s, find, rep))
    decreases |s|
  {
    if |s| >= |find| {
      if OccursAt(s, find, 0) { ReplaceAllNoNul(s[|find|..], find, rep); }
      else { ReplaceAllNoNul(s[1..], find, rep); }
    }
  }

  lemma OccursShift(s: string, find: string, d: nat, j: nat)
    requires d <= |s|
    ensures OccursAt(s[d..], find, j) <==> OccursAt(s, find, d + j)
  {
  }

  lemma ReplaceAllSkip(s: string, find: string, rep: string)
    requires 0 < |find| < |s| && !OccursAt(s, find, 0)
    ensures ReplaceAll(s, find, rep) == [s[0]] + ReplaceAll(s[1..], find, rep)
  {
  }

  /** Dropping the first character moves the first occurrence one step forward. */
  lemma FirstShift(s: string, find: string, i: nat)
    requires i > 0 && OccursAt(s, find, i)
    requires forall j | 0 <= j < i :: !OccursAt(s, find, j)
    ensures OccursAt(s[1..], find, i - 1)
    ensures forall j | 0 <= j < i - 1 :: !OccursAt(s[1..], find, j)
  {
    OccursShift(s, find, 1, i - 1);
    forall j: nat | j < i - 1 ensures !OccursAt(s[1..], find, j) {
      OccursShift(s, find, 1, j);
    }
  }

  lemma DropOne(s: string, i: nat, n: nat, rep: string, rest: string)
    requires 0 < i <= i + n <= |s|
    ensures s[1..][i - 1 + n..] == s[i + n..]
    ensures [s[0]] + (s[1..][..i - 1] + rep + rest) == s[..i] + rep + rest
  {
    assert [s[0]] + s[1..][..i - 1] == s[..i];
    Regroup([s[0]], s[1..][..i - 1], rep, rest);
  }

  /** The step of every left-to-right loop: copy up to the first match, emit, go on. */
  lemma {:induction false} ReplaceAllFirst(s: string, find: string, rep: string, i: nat)
    requires |find| > 0 && OccursAt(s, find, i)
    requires forall j | 0 <= j < i :: !OccursAt(s, find, j)
    ensures ReplaceAll(s, find, rep) == s[..i] + rep + ReplaceAll(s[i + |find|..], find, rep)
    decreases i
  {
    if i == 0 {
      assert s[..0] + rep == rep;
    } else {
      ReplaceAllFirstStep(s, find, rep, i);
    }
  }

  lemma {:induction false} ReplaceAllFirstStep(s: string, find: string, rep: string, i: nat)
    requires |find| > 0 && OccursAt(s, find, i) && i > 0
    requires forall j | 0 <= j < i :: !OccursAt(s, find, j)
    ensures ReplaceAll(s, find, rep) == s[..i] + rep + ReplaceAll(s[i + |find|..], find, rep)
    decreases i, 0
  {
    hide ReplaceAll;
    FirstShift(s, find, i);
    ReplaceAllFirst(s[1..], find, rep, i - 1);
    ReplaceAllSkip(s, find, rep);
    DropOne(s, i, |find|, rep, ReplaceAll(s[i + |find|..], find, rep));
  }

  /** Overlapping occurrences give `find` a border. */
  lemma OverlapIsBorder(s: string, find: string, i: nat, j: nat)
    requires OccursAt(s, find, i) && OccursAt(s, find, j) && i < j < i + |find|
    ensures SuffixIsPrefix(find, find, i + |find| - j)
  {
    var k := i + |find| - j;
    forall x | 0 <= x < k ensures find[|find| - k + x] == find[x] {
      assert s[i + (|find| - k + x)] == s[j + x];
    }
  }

  /** Two occurrences of a border-free text are at least |find| apart. */
  lemma OccurrencesApart(s: string, find: string, i: nat, j: nat)
    requires NoSuffixIsPrefixOf(find, find)
    requires OccursAt(s, find, i) && OccursAt(s, find, j) && i < j
    ensures i + |find| <= j
  {
    if j < i + |find| {
      OverlapIsBorder(s, find, i, j);
    }
  }

  /** One unfolding of the left scan, for a text whose last match is not at its start. */
  lemma ReplaceAllStep(a: string, find: string, rep: string, d: nat, i: nat)
    requires |find| > 0 && OccursAt(a, find, i) && 0 < d <= i
    requires d == if OccursAt(a, find, 0) then |find| else 1
    ensures var e := if OccursAt(a, find, 0) then rep else [a[0]];
            && ReplaceAll(a, find, rep) == e + ReplaceAll(a[d..], find, rep)
            && ReplaceAll(a[..i], find, rep) == e + ReplaceAll(a[d..][..i - d], find, rep)
  {
    assert a[d..][..i - d] == a[..i][d..];
    if i >= |find| {
      assert OccursAt(a[..i], find, 0) == OccursAt(a, find, 0);
    } else {
      assert a[..i] == [a[0]] + a[..i][1..];
    }
  }

  /** Dropping a front part keeps the last occurrence the last one. */
  lemma LastShift(a: string, find: string, d: nat, i: nat)
    requires d <= |a|
    requires forall j | i < j < |a| :: !OccursAt(a, find, j)
    ensures forall j | i - d < j < |a| - d && 0 <= j :: !OccursAt(a[d..], find, j)
  {
    forall j | i - d < j < |a| - d && 0 <= j ensures !OccursAt(a[d..], find, j) {
      OccursShift(a, find, d, j);
    }
  }

  lemma DropBoth(s: string, d: nat, j: nat)
    requires d <= j <= |s|
    ensures s[d..][j - d..] == s[j..]
  {
  }

  /** Without borders the last occurrence is also the last one the left scan replaces. */
  lemma {:induction false} ReplaceAllLast(a: string, find: string, rep: string, i: nat)
    requires |find| > 0 && NoSuffixIsPrefixOf(find, find)
    requires OccursAt(a, find, i)
    requires forall j | i < j < |a| :: !OccursAt(a, find, j)
    ensures ReplaceAll(a, find, rep) == ReplaceAll(a[..i], find, rep) + rep + a[i + |find|..]
    decreases |a|
  {
    if i == 0 {
      LastShift(a, find, |find|, 0);
      ReplaceAllNone(a[|find|..], find, rep);
      assert [] + rep == rep;
    } else {
      ReplaceAllLastStep(a, find, rep, i);
    }
  }

  /** Dropping what the scan emits first keeps the last occurrence the last one. */
  lemma LastAfterStep(a: string, find: string, d: nat, i: nat)
    requires |find| > 0 && NoSuffixIsPrefixOf(find, find)
    requires OccursAt(a, find, i) && i > 0
    requires forall j | i < j < |a| :: !OccursAt(a, find, j)
    requires d == if OccursAt(a, find, 0) then |find| else 1
    ensures d <= i && OccursAt(a[d..], find, i - d)
    ensures forall j | i - d < j < |a[d..]| :: !OccursAt(a[d..], find, j)
  {
    if OccursAt(a, find, 0) { OccurrencesApart(a, find, 0, i); }
    OccursShift(a, find, d, i - d);
    LastShift(a, find, d, i);
  }

  lemma {:induction false} ReplaceAllLastStep(a: string, find: string, rep: string, i: nat)
    requires |find| > 0 && NoSuffixIsPrefixOf(find, find)
    requires OccursAt(a, find, i) && i > 0
    requires forall j | i < j < |a| :: !OccursAt(a, find, j)
    ensures ReplaceAll(a, find, rep) == ReplaceAll(a[..i], find, rep) + rep + a[i + |find|..]
    decreases |a|, 0
  {
    hide ReplaceAll, NoSuffixIsPrefixOf;
    var first := OccursAt(a, find, 0);
    var d, e := if first then |find| else 1, if first then rep else [a[0]];
    LastAfterStep(a, find, d, i);
    ReplaceAllLast(a[d..], find, rep, i - d);
    ReplaceAllStep(a, find, rep, d, i);
    DropBoth(a, d, i + |find|);
    Regroup(e, ReplaceAll(a[d..][..i - d], find, rep), rep, a[i + |find|..]);
  }

  /** No occurrence that starts before `a` ends reaches beyond `a`. */
  ghost predicate Sealed(a: string, t: string, find: string) {
    forall j | 0 <= j < |a| && OccursAt(a + t, find, j) :: j + |find| <= |a|
  }

  lemma OccursInPrefix(a: string, t: string, find: string, j: nat)
    requires j + |find| <= |a|
    ensures OccursAt(a + t, find, j) <==> OccursAt(a, find, j)
  {
  }

  lemma EditFront(a: string, t: string, rep: string, i: nat, j: nat)
    requires i <= j <= |a|
    ensures (a + t)[..i] + rep + (a + t)[j..] == a[..i] + (rep + a[j..] + t)
  {
    assert (a + t)[..i] == a[..i];
    assert (a + t)[j..] == a[j..] + t;
  }

  /** The walk over a sealed front part leaves the tail alone and replaces the front. */
  lemma {:induction false} WalkBackSealed(a: string, t: string, find: string, rep: string)
    requires 0 < |find| < |rep| && Separable(find, rep) && Sealed(a, t, find)
    ensures WalkBack(a + t, find, rep, |a| - 1) == ReplaceAll(a, find, rep) + t
    decreases |a|
  {
    hide ReplaceAll, OccursAt, NoSuffixIsPrefixOf, Sealed, LastAtMost, WalkBack;
    var i := LastAtMost(a + t, find, |a| - 1);
    SealedLast(a, t, find);
    WalkBackStep(a + t, find, rep, |a| - 1);
    if i < 0 {
      ReplaceAllNone(a, find, rep);
    } else {
      MatchFits(a, find, i);
      var a', t' := a[..i], rep + a[i + |find|..] + t;
      EditFront(a, t, rep, i, i + |find|);
      ReplacementSeals(a', t', find, rep);
      WalkBackSealed(a', t', find, rep);
      ReplaceAllLast(a, find, rep, i);
      Regroup(ReplaceAll(a', find, rep), rep, a[i + |find|..], t);
    }
  }

  /** In a sealed front part the last match of the whole text is its own last match. */
  lemma SealedLast(a: string, t: string, find: string)
    requires Sealed(a, t, find)
    ensures var i := LastAtMost(a + t, find, |a| - 1);
            && (i >= 0 ==> OccursAt(a, find, i))
            && forall j | 0 <= j && i < j < |a| :: !OccursAt(a, find, j)
  {
    var i := LastAtMost(a + t, find, |a| - 1);
    if i >= 0 { OccursInPrefix(a, t, find, i); }
    forall j | 0 <= j && i < j < |a| ensures !OccursAt(a, find, j) {
      if j + |find| <= |a| { OccursInPrefix(a, t, find, j); }
    }
  }

  /** A match that starts in `a` and ends in `t` shows a suffix of `find` in front of `t`. */
  lemma StraddleIsSpill(a: string, t: string, find: string, j: nat)
    requires OccursAt(a + t, find, j) && j < |a| < j + |find|
    ensures SuffixIsPrefix(find, t, j + |find| - |a|)
  {
    var k := j + |find| - |a|;
    forall x | 0 <= x < k ensures find[|find| - k + x] == t[x] {
      assert (a + t)[j + (|find| - k + x)] == t[x];
    }
  }

  lemma ReplacementSeals(a: string, t: string, find: string, rep: string)
    requires 0 < |find| < |rep| && NoSuffixIsPrefixOf(find, rep) && rep <= t
    ensures Sealed(a, t, find)
  {
    forall j | 0 <= j < |a| && OccursAt(a + t, find, j) ensures j + |find| <= |a| {
      if j + |find| > |a| {
        assert !SuffixIsPrefix(find, rep, j + |find| - |a|);
        StraddleIsSpill(a, t, find, j);
      }
    }
  }

  // ---------------------------------------------------------------- exactness

  /** The growing mode meets its specification on every text. */
  ghost predicate GrowsCorrectly(find: string, rep: string)
    requires |find| > 0
  {
    forall s: string | NoNul(s) :: WalkBack(s, find, rep, |s| - 1) == ReplaceAll(s, find, rep)
  }

  lemma SeparableGrowsCorrectly(s: string, find: string, rep: string)
    requires 0 < |find| < |rep| && Separable(find, rep)
    ensures WalkBack(s, find, rep, |s| - 1) == ReplaceAll(s, find, rep)
  {
    assert s + [] == s;
    WalkBackSealed(s, [], find, rep);
  }

  /** The texts below are a proper prefix of `find`, then `find`: one match fits last. */
  lemma LastInOverlap(find: string, d: nat)
    requires 0 < d < |find|
    ensures var s := find[..d] + find; LastAtMost(s, find, |s| - 1) == d
  {
    var s := find[..d] + find;
    assert OccursAt(s, find, d);
  }

  lemma FirstEdit(find: string, rep: string, d: nat)
    requires 0 < d < |find|
    ensures var s := find[..d] + find;
            WalkBack(s, find, rep, |s| - 1) == WalkBack(find[..d] + rep, find, rep, d - 1)
  {
    hide WalkBack, LastAtMost, OccursAt;
    var s := find[..d] + find;
    LastInOverlap(find, d);
    WalkBackStep(s, find, rep, |s| - 1);
    EditLast(find, rep, d);
  }

  lemma EditLast(find: string, rep: string, d: nat)
    requires d <= |find|
    ensures var s := find[..d] + find; s[..d] + rep + s[d + |find|..] == find[..d] + rep
  {
    var s := find[..d] + find;
    assert s[..d] == find[..d] && s[d + |find|..] == [];
  }

  lemma OverlapNoNul(find: string, d: nat)
    requires d <= |find| && NoNul(find)
    ensures NoNul(find[..d] + find)
  {
  }

  lemma {:induction false} ReplaceAllGrows(s: string, find: string, rep: string)
    requires 0 < |find| <= |rep|
    ensures |ReplaceAll(s, find, rep)| >= |s|
    decreases |s|
  {
    if |s| >= |find| {
      ReplaceAllGrows(s[if OccursAt(s, find, 0) then |find| else 1..], find, rep);
    }
  }

  /** A match at `i` lets the left scan replace once more than in front of `i` alone. */
  lemma {:induction false} OneMoreMatch(a: string, find: string, rep: string, i: nat)
    requires 0 < |find| <= |rep| && OccursAt(a, find, i)
    ensures |ReplaceAll(a, find, rep)|
         >= |ReplaceAll(a[..i], find, rep)| + (|a| - i) + (|rep| - |find|)
    decreases |a|
  {
    hide ReplaceAll, OccursAt;
    MatchFits(a, find, i);
    var first := OccursAt(a, find, 0);
    if first && i < |find| {
      HeadMatch(a, find, rep, i);
    } else {
      var d := if first then |find| else 1;
      OccursShift(a, find, d, i - d);
      OneMoreMatch(a[d..], find, rep, i - d);
      ReplaceAllStep(a, find, rep, d, i);
    }
  }

  lemma HeadMatch(a: string, find: string, rep: string, i: nat)
    requires 0 < |find| <= |rep| && OccursAt(a, find, 0) && i < |find|
    ensures |ReplaceAll(a, find, rep)| >= |rep| + |a| - |find| && |ReplaceAll(a[..i], find, rep)| == i
  {
    ReplaceAllGrows(a[|find|..], find, rep);
  }

  lemma {:induction false} WalkBackRoom(a: string, t: string, find: string, rep: string)
    requires 0 < |find| < |rep| && NoSuffixIsPrefixOf(find, rep) && Sealed(a, t, find)
    ensures |WalkBack(a + t, find, rep, |a| - 1)| <= |ReplaceAll(a, find, rep)| + |t|
    decreases |a|
  {
    hide ReplaceAll, OccursAt, NoSuffixIsPrefixOf, Sealed;
    var i := LastAtMost(a + t, find, |a| - 1);
    SealedLast(a, t, find);
    WalkBackStep(a + t, find, rep, |a| - 1);
    if i < 0 {
      ReplaceAllGrows(a, find, rep);
    } else {
      MatchFits(a, find, i);
      var a', t' := a[..i], rep + a[i + |find|..] + t;
      EditFront(a, t, rep, i, i + |find|);
      ReplacementSeals(a', t', find, rep);
      WalkBackRoom(a', t', find, rep);
      OneMoreMatch(a, find, rep, i);
    }
  }

  lemma MatchFits(s: string, find: string, at: nat)
    requires OccursAt(s, find, at)
    ensures at + |find| <= |s|
  {
  }

  /** The sizing pass never counts fewer matches than the walk makes, on any text, exactly
      if the replacement text cannot complete a match. */
  lemma SizingExact(find: string, rep: string)
    requires 0 < |find| < |rep| && NoNul(find)
    ensures NoSuffixIsPrefixOf(find, rep) <==>
            forall s: string | NoNul(s) ::
              |WalkBack(s, find, rep, |s| - 1)| <= |ReplaceAll(s, find, rep)|
  {
    hide WalkBack, ReplaceAll;
    if NoSuffixIsPrefixOf(find, rep) {
      forall s: string | NoNul(s)
        ensures |WalkBack(s, find, rep, |s| - 1)| <= |ReplaceAll(s, find, rep)|
      {
        assert s + [] == s;
        WalkBackRoom(s, [], find, rep);
      }
    } else {
      var k :| 0 < k < |find| && SuffixIsPrefix(find, rep, k);
      SpillBreaks(find, rep, k);
      OverlapNoNul(find, |find| - k);
    }
  }

  /** If a suffix of `find` starts `rep`, the walk matches into its own replacement. */
  lemma SpillBreaks(find: string, rep: string, k: nat)
    requires 0 < k < |find| < |rep| && SuffixIsPrefix(find, rep, k)
    ensures var s := find[..|find| - k] + find;
            |WalkBack(s, find, rep, |s| - 1)| > |ReplaceAll(s, find, rep)|
  {
    hide *;
    var d := |find| - k;
    FirstEdit(find, rep, d);
    SpillMatches(find, rep, k);
    MatchAtStart(find[..d] + rep, find, d - 1);
    WalkBackGrows(find[..d] + rep, find, rep, d - 1);
    ReplaceAllShort(find[..d] + find, find, rep);
  }

  lemma MatchAtStart(s: string, find: string, bound: nat)
    requires OccursAt(s, find, 0)
    ensures LastAtMost(s, find, bound) >= 0
  {
  }

  lemma SpillMatches(find: string, rep: string, k: nat)
    requires 0 < k < |find| && SuffixIsPrefix(find, rep, k)
    ensures OccursAt(find[..|find| - k] + rep, find, 0)
  {
    var d := |find| - k;
    var s := find[..d] + rep;
    forall x | 0 <= x < |find| ensures s[x] == find[x] {
      if x >= d { assert find[d + (x - d)] == rep[x - d]; }
    }
  }

  /** Without a spill, a border alone makes the two directions pick different matches. */
  lemma BorderBreaks(find: string, rep: string, k: nat)
    requires 0 < k < |find| < |rep| && SuffixIsPrefix(find, find, k)
    requires NoSuffixIsPrefixOf(find, rep)
    ensures var s := find[..|find| - k] + find;
            WalkBack(s, find, rep, |s| - 1) != ReplaceAll(s, find, rep)
  {
    hide *;
    BorderFromRight(find, rep, |find| - k);
    BorderFromLeft(find, rep, k);
    DirectionsDiffer(find, rep, k);
  }

  lemma BorderFromRight(find: string, rep: string, d: nat)
    requires 0 < d < |find| < |rep| && NoSuffixIsPrefixOf(find, rep)
    ensures var s := find[..d] + find; WalkBack(s, find, rep, |s| - 1) == find[..d] + rep
  {
    FirstEdit(find, rep, d);
    ReplacementSeals(find[..d], rep, find, rep);
    assert LastAtMost(find[..d] + rep, find, d - 1) == -1;
  }

  lemma BorderFromLeft(find: string, rep: string, k: nat)
    requires 0 < k < |find| && SuffixIsPrefix(find, find, k)
    ensures ReplaceAll(find[..|find| - k] + find, find, rep) == rep + find[k..]
  {
    var d := |find| - k;
    var s := find[..d] + find;
    SpillMatches(find, find, k);
    assert s[|find|..] == find[k..];
  }

  lemma DirectionsDiffer(find: string, rep: string, k: nat)
    requires 0 < k < |find| < |rep| && SuffixIsPrefix(find, find, k)
    requires NoSuffixIsPrefixOf(find, rep)
    ensures find[..|find| - k] + rep != rep + find[k..]
  {
    if find[..|find| - k] + rep == rep + find[k..] {
      SamePeriod(find, rep, k);
    }
  }

  /** Both texts repeat the same front part, so the shorter is a prefix of the longer. */
  lemma SamePeriod(find: string, rep: string, k: nat)
    requires 0 < k < |find| < |rep| && SuffixIsPrefix(find, find, k)
    requires find[..|find| - k] + rep == rep + find[k..]
    ensures SuffixIsPrefix(find, rep, k)
  {
    forall i | 0 <= i < k ensures rep[i] == find[i] {
      SamePeriodAt(find, rep, |find| - k, i);
    }
  }

  lemma {:induction false} SamePeriodAt(find: string, rep: string, d: nat, i: nat)
    requires 0 < d < |find| < |rep| && i < |find|
    requires SuffixIsPrefix(find, find, |find| - d)
    requires find[..d] + rep == rep + find[|find| - d..]
    ensures rep[i] == find[i]
    decreases i
  {
    var lhs, rhs := find[..d] + rep, rep + find[|find| - d..];
    assert lhs[i] == rhs[i];
    assert rhs[i] == rep[i];
    if i >= d {
      SamePeriodAt(find, rep, d, i - d);
      assert lhs[i] == rep[i - d];
      assert find[d + (i - d)] == find[i - d];
    }
  }

  /** Growing replacement is right on every text exactly for separable arguments. */
  lemma GrowExact(find: string, rep: string)
    requires 0 < |find| < |rep| && NoNul(find)
    ensures GrowsCorrectly(find, rep) <==> Separable(find, rep)
  {
    if Separable(find, rep) {
      forall s: string | NoNul(s)
        ensures WalkBack(s, find, rep, |s| - 1) == ReplaceAll(s, find, rep)
      {
        SeparableGrowsCorrectly(s, find, rep);
      }
    } else {
      InseparableBreaks(find, rep);
    }
  }

  lemma InseparableBreaks(find: string, rep: string)
    requires 0 < |find| < |rep| && NoNul(find) && !Separable(find, rep)
    ensures exists s: string ::
              NoNul(s) && WalkBack(s, find, rep, |s| - 1) != ReplaceAll(s, find, rep)
  {
    hide WalkBack, ReplaceAll;
    if !NoSuffixIsPrefixOf(find, rep) {
      var k :| 0 < k < |find| && SuffixIsPrefix(find, rep, k);
      SpillBreaks(find, rep, k);
      OverlapNoNul(find, |find| - k);
    } else {
      var k :| 0 < k < |find| && SuffixIsPrefix(find, find, k);
      BorderBreaks(find, rep, k);
      OverlapNoNul(find, |find| - k);
    }
  }
}
