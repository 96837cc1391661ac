/** Searching a stream, hardware/arduino/cores/arduino/Stream.cpp:97-125. Bytes are read as 0 to
    255, the characters of a target are signed. */
module StreamFindSpec {
  import opened Sequences

  type Bytes = seq<int>

  // ---------------------------------------------------------------- the matcher

  /** `index` after one more byte: a mismatch drops to 0 and tries the first character. */
  function Advance(target: Bytes, index: nat, c: int): (next: nat)
    requires index < |target|
    ensures next <= index + 1 <= |target|
  {
    var i := if c != target[index] then 0 else index;
    if c == target[i] then i + 1 else i
  }

  /** `index` after the bytes of `s`; it stays at the end once the target was found. */
  function Index(target: Bytes, s: Bytes): (index: nat)
    requires target != []
    ensures index <= |target| && index <= |s|
  {
    if s == [] then 0
    else
      var i := Index(target, s[..|s| - 1]);
      if i == |target| then i else Advance(target, i, s[|s| - 1])
  }

  /** The target was not found before the last byte. */
  ghost predicate Live(target: Bytes, s: Bytes)
    requires target != []
  {
    s == [] || Index(target, s[..|s| - 1]) < |target|
  }

  /** `n` bytes of `s` are enough for the matcher, and no fewer. */
  ghost predicate FoundAfter(target: Bytes, s: Bytes, n: nat)
    requires target != []
  {
    n <= |s| && Index(target, s[..n]) == |target| && Live(target, s[..n])
  }

  /** The target ends at byte `n` of `s` and at no earlier one. */
  ghost predicate FirstOccurrence(target: Bytes, s: Bytes, n: nat) {
    n <= |s| && EndsWith(s[..n], target) && forall k | 0 <= k < n :: !EndsWith(s[..k], target)
  }

  lemma EndsWithSnoc(s: Bytes, c: int, t: Bytes, b: nat)
    requires b < |t|
    ensures EndsWith(s + [c], t[..b + 1]) <==> EndsWith(s, t[..b]) && c == t[b]
  {
    if b <= |s| {
      assert (s + [c])[|s| - b..] == s[|s| - b..] + [c];
      assert t[..b + 1] == t[..b] + [t[b]];
      SnocEqual(s[|s| - b..], c, t[..b], t[b]);
    }
  }

  lemma SnocEqual(x: Bytes, c: int, y: Bytes, d: int)
    ensures x + [c] == y + [d] <==> x == y && c == d
  {
    if x + [c] == y + [d] {
      assert |x| == |y|;
      assert (x + [c])[..|x|] == x && (y + [d])[..|y|] == y;
      assert (x + [c])[|x|] == c && (y + [d])[|y|] == d;
    }
  }

  lemma AdvanceCases(target: Bytes, index: nat, c: int)
    requires index < |target|
    ensures var n := Advance(target, index, c);
      n == 0 || (n == index + 1 && c == target[index]) || (n == 1 && c == target[0])
  {
  }

  /** The bytes counted by `index` are the last ones read. */
  lemma {:induction false} IndexSound(target: Bytes, s: Bytes)
    requires target != [] && Live(target, s)
    ensures EndsWith(s, target[..Index(target, s)])
  {
    hide EndsWith, Advance;
    if s == [] {
      EndsWithNothing(s);
    } else {
      var front, c := s[..|s| - 1], s[|s| - 1];
      var i := Index(target, front);
      IndexSound(target, front);
      assert s == front + [c];
      AdvanceCases(target, i, c);
      EndsWithSnoc(front, c, target, i);
      EndsWithSnoc(front, c, target, 0);
      EndsWithNothing(front);
      EndsWithNothing(s);
    }
  }

  // ---------------------------------------------------------------- when it finds everything

  /** Every proper part of the target that ends where a mismatch can occur is followed by the
      byte that would have matched, so dropping to 0 forgets nothing. */
  ghost predicate Forgetful(target: Bytes) {
    forall k, b | 0 < b < k < |target| && EndsWith(target[..k], target[..b]) :: target[b] == target[k]
  }

  /** No prefix of the target longer than `index` ends where the input ends. */
  ghost predicate Longest(target: Bytes, s: Bytes)
    requires target != []
  {
    forall b | 0 <= b <= |target| && EndsWith(s, target[..b]) :: b <= Index(target, s)
  }

  lemma Overlap(s: Bytes, t: Bytes, b: nat, k: nat)
    requires b <= k <= |t| && EndsWith(s, t[..k]) && EndsWith(s, t[..b])
    ensures EndsWith(t[..k], t[..b])
  {
    assert s[|s| - k..][k - b..] == s[|s| - b..];
  }

  lemma LongestStep(target: Bytes, front: Bytes, c: int, b: nat)
    requires target != [] && Forgetful(target) && Longest(target, front) && Index(target, front) < |target|
    requires EndsWith(front, target[..Index(target, front)])
    requires b <= |target| && EndsWith(front + [c], target[..b])
    ensures b <= Advance(target, Index(target, front), c)
  {
    var k := Index(target, front);
    if b > 0 {
      EndsWithSnoc(front, c, target, b - 1);
      if b - 1 < k {
        Overlap(front, target, b - 1, k);
      }
    }
  }

  lemma {:induction false} IndexLongest(target: Bytes, s: Bytes)
    requires target != [] && Forgetful(target) && Live(target, s)
    ensures Longest(target, s)
  {
    if s != [] {
      var front, c := s[..|s| - 1], s[|s| - 1];
      assert s == front + [c];
      IndexLongest(target, front);
      IndexSound(target, front);
      forall b | 0 <= b <= |target| && EndsWith(s, target[..b]) ensures b <= Index(target, s) {
        LongestStep(target, front, c, b);
      }
    }
  }

  /** Found by the matcher after `n` bytes means found: they end with the target. */
  lemma FoundIsOccurrence(target: Bytes, s: Bytes, n: nat)
    requires target != [] && FoundAfter(target, s, n)
    ensures EndsWith(s[..n], target)
  {
    IndexSound(target, s[..n]);
    assert target[..|target|] == target;
  }

  lemma {:induction false} LiveEarlier(target: Bytes, s: Bytes, k: nat)
    requires target != [] && Live(target, s) && k < |s|
    ensures Index(target, s[..k]) < |target| && Live(target, s[..k])
  {
    var front := s[..|s| - 1];
    if k < |front| {
      assert front[..k] == s[..k];
      LiveEarlier(target, front, k);
    } else {
      assert front == s[..k];
    }
  }

  lemma ForgetfulFinds(target: Bytes, s: Bytes, n: nat)
    requires target != [] && Forgetful(target)
    ensures FoundAfter(target, s, n) <==> FirstOccurrence(target, s, n)
  {
    if FoundAfter(target, s, n) {
      FoundIsOccurrence(target, s, n);
      forall k | 0 <= k < n ensures !EndsWith(s[..k], target) {
        LiveEarlier(target, s[..n], k);
        assert s[..n][..k] == s[..k];
        NotYet(target, s[..k]);
      }
    } else if FirstOccurrence(target, s, n) {
      FirstIsFound(target, s, n);
    }
  }

  lemma NotYet(target: Bytes, s: Bytes)
    requires target != [] && Forgetful(target) && Live(target, s) && Index(target, s) < |target|
    ensures !EndsWith(s, target)
  {
    IndexLongest(target, s);
    assert target[..|target|] == target;
  }

  lemma NotFound(target: Bytes, s: Bytes)
    requires target != [] && Live(target, s) && !EndsWith(s, target)
    ensures Index(target, s) < |target|
  {
    IndexSound(target, s);
    assert target[..|target|] == target;
  }

  /** Before the first occurrence the matcher has not found anything. */
  lemma {:induction false} FirstIsLive(target: Bytes, s: Bytes, n: nat, k: nat)
    requires target != [] && FirstOccurrence(target, s, n) && k <= n
    ensures Live(target, s[..k]) && (k < n ==> Index(target, s[..k]) < |target|)
  {
    if k > 0 {
      FirstIsLive(target, s, n, k - 1);
      assert s[..k][..k - 1] == s[..k - 1];
    }
    if k < n { NotFound(target, s[..k]); }
  }

  lemma FirstIsFound(target: Bytes, s: Bytes, n: nat)
    requires target != [] && Forgetful(target) && FirstOccurrence(target, s, n)
    ensures FoundAfter(target, s, n)
  {
    FirstIsLive(target, s, n, n);
    IndexLongest(target, s[..n]);
    assert target[..|target|] == target;
  }

  // ---------------------------------------------------------------- when it does not

  /** Reading on raises `index` by at most one a byte. */
  lemma {:induction false} IndexSlow(target: Bytes, s: Bytes, more: Bytes)
    requires target != [] && Index(target, s) + |more| < |target|
    ensures Index(target, s + more) <= Index(target, s) + |more|
  {
    if more == [] {
      assert s + more == s;
    } else {
      var front := more[..|more| - 1];
      IndexSlow(target, s, front);
      assert (s + more)[..|s + more| - 1] == s + front;
    }
  }

  /** Reading the target's own prefix matches it byte by byte. */
  lemma {:induction false} IndexOfPrefix(target: Bytes, k: nat)
    requires target != [] && k < |target|
    ensures Index(target, target[..k]) == k
  {
    if k > 0 {
      IndexOfPrefix(target, k - 1);
      assert target[..k][..k - 1] == target[..k - 1];
    }
  }

  /** A stream on which a target that is not forgetful is there but not found. */
  function Missed(target: Bytes, k: nat, b: nat): Bytes
    requires 0 < b < k < |target|
  {
    target[..k] + target[b..]
  }

  lemma MissedIsThere(target: Bytes, k: nat, b: nat)
    requires 0 < b < k < |target| && EndsWith(target[..k], target[..b])
    ensures EndsWith(Missed(target, k, b), target)
  {
    var s := Missed(target, k, b);
    assert s[|s| - |target|..] == target[..k][k - b..] + target[b..];
    assert target[..b] + target[b..] == target;
  }

  lemma MissedIsMissed(target: Bytes, k: nat, b: nat)
    requires 0 < b < k < |target| && target[b] != target[k]
    ensures Index(target, Missed(target, k, b)) < |target|
  {
    hide Index, Missed;
    var head, more := target[..k] + [target[b]], target[b + 1..];
    IndexOfPrefix(target, k);
    OneMore(target, target[..k], target[b]);
    MissedParts(target, k, b);
    IndexSlow(target, head, more);
  }

  lemma MissedParts(target: Bytes, k: nat, b: nat)
    requires 0 < b < k < |target|
    ensures Missed(target, k, b) == target[..k] + [target[b]] + target[b + 1..]
  {
  }

  lemma OneMore(target: Bytes, s: Bytes, c: int)
    requires target != [] && Index(target, s) < |target| && c != target[Index(target, s)]
    ensures Index(target, s + [c]) <= 1
  {
    assert (s + [c])[..|s + [c]| - 1] == s;
  }

  lemma {:induction false} LeastOccurrence(target: Bytes, s: Bytes, n: nat) returns (first: nat)
    requires n <= |s| && EndsWith(s[..n], target)
    ensures first <= n && FirstOccurrence(target, s, first)
  {
    if k :| 0 <= k < n && EndsWith(s[..k], target) {
      first := LeastOccurrence(target, s, k);
    } else {
      first := n;
    }
  }

  lemma NeverFound(target: Bytes, s: Bytes, n: nat)
    requires target != [] && Index(target, s) < |target| && n <= |s|
    ensures !FoundAfter(target, s, n)
  {
    assert s[..|s|] == s;
    if n < |s| { LiveEarlier(target, s, n); }
  }

  /** Bytes that the search reads on from: a NUL ends it like a timeout. */
  ghost predicate Text(s: Bytes) {
    forall i | 0 <= i < |s| :: 0 < s[i] < 256
  }

  /** A byte as a `char`, which is signed. */
  function Char(b: int): (c: int)
    ensures 0 <= b < 128 ==> c == b
    ensures 128 <= b < 256 ==> c < 0
  {
    if b < 128 then b else b - 256
  }

  /** The bytes as the code compares them: those from 128 on are negative. */
  function Chars(s: Bytes): (t: Bytes)
    ensures |t| == |s| && forall i | 0 <= i < |s| :: t[i] == Char(s[i])
  {
    seq(|s|, i requires 0 <= i < |s| => Char(s[i]))
  }

  ghost predicate Ascii(s: Bytes) {
    forall i | 0 <= i < |s| :: s[i] < 128
  }

  /** On every stream the matcher finds the first occurrence of the target's bytes and nothing
      else. */
  ghost predicate FindsFirst(target: Bytes)
    requires target != []
  {
    forall s: Bytes, n: nat | Text(s) :: FoundAfter(Chars(target), s, n) <==> FirstOccurrence(target, s, n)
  }

  lemma NotForgetfulMisses(target: Bytes) returns (s: Bytes, n: nat)
    requires target != [] && Text(target) && !Forgetful(target)
    ensures Text(s) && FirstOccurrence(target, s, n) && !FoundAfter(target, s, n)
  {
    hide EndsWith, FirstOccurrence, FoundAfter, Index;
    var k, b :| 0 < b < k < |target| && EndsWith(target[..k], target[..b]) && target[b] != target[k];
    s := Missed(target, k, b);
    MissedIsThere(target, k, b);
    MissedIsMissed(target, k, b);
    assert s[..|s|] == s;
    n := LeastOccurrence(target, s, |s|);
    NeverFound(target, s, n) by { LeastInside(target, s, n); }
  }

  lemma LeastInside(target: Bytes, s: Bytes, n: nat)
    requires FirstOccurrence(target, s, n)
    ensures n <= |s|
  {
  }

  /** A target with a byte from 128 on is found nowhere, not even where it is all there is. */
  lemma HighByteMisses(target: Bytes)
    requires target != [] && Text(target) && !Ascii(target)
    ensures FirstOccurrence(target, target, |target|)
    ensures forall s: Bytes, n: nat | Text(s) :: !FoundAfter(Chars(target), s, n)
  {
    hide FoundAfter, Ascii;
    assert target[..|target|] == target;
    forall s: Bytes, n: nat | Text(s) ensures FoundAfter(Chars(target), s, n) ==> Ascii(target) {
      if FoundAfter(Chars(target), s, n) { FoundAscii(target, s, n); }
    }
  }

  lemma FoundAscii(target: Bytes, s: Bytes, n: nat)
    requires target != [] && Text(target) && Text(s) && FoundAfter(Chars(target), s, n)
    ensures Ascii(target)
  {
    FoundIsOccurrence(Chars(target), s, n);
    forall i: nat | i < |target| ensures target[i] < 128 { EndsWithAt(s[..n], Chars(target), i); }
  }

  lemma EndsWithAt(s: Bytes, t: Bytes, i: nat)
    requires EndsWith(s, t) && i < |t|
    ensures s[|s| - |t| + i] == t[i]
  {
    assert s[|s| - |t|..][i] == t[i];
  }

  /** The simple reset and the signed comparison are as good as a full search exactly for the
      forgetful targets of bytes below 128. */
  lemma FindExact(target: Bytes)
    requires target != [] && Text(target)
    ensures FindsFirst(target) <==> Forgetful(target) && Ascii(target)
  {
    hide FirstOccurrence, FoundAfter, Forgetful, Text, Ascii;
    if Ascii(target) {
      AsciiChars(target);
      if Forgetful(target) {
        forall s: Bytes, n: nat | Text(s) ensures FoundAfter(target, s, n) <==> FirstOccurrence(target, s, n) {
          ForgetfulFinds(target, s, n);
        }
      } else {
        var s, n := NotForgetfulMisses(target);
      }
    } else {
      HighByteMisses(target);
    }
  }

  lemma AsciiChars(target: Bytes)
    requires Text(target) && Ascii(target)
    ensures Chars(target) == target
  {
  }

  /** A target whose first byte does not come again is forgetful. */
  lemma UniqueFirst(target: Bytes)
    requires target != [] && forall i | 0 < i < |target| :: target[i] != target[0]
    ensures Forgetful(target)
  {
    forall k, b | 0 < b < k < |target| ensures !EndsWith(target[..k], target[..b]) {
      NoBorder(target, k, b);
    }
  }

  lemma NoBorder(target: Bytes, k: nat, b: nat)
    requires 0 < b < k < |target| && target[k - b] != target[0]
    ensures !EndsWith(target[..k], target[..b])
  {
    assert target[..k][k - b..][0] == target[k - b];
    assert target[..b][0] == target[0];
  }

  lemma IndexSnoc(target: Bytes, s: Bytes, c: int)
    requires target != [] && Index(target, s) < |target|
    ensures Index(target, s + [c]) == Advance(target, Index(target, s), c)
  {
    assert (s + [c])[..|s|] == s;
  }

  // ---------------------------------------------------------------- the terminator

  /** `termIndex` after the bytes of `s`: a mismatch drops to 0 and the byte is not tried again. */
  function TermIndex(term: Bytes, s: Bytes): (index: nat)
    requires term != []
    ensures index <= |term| && index <= |s|
  {
    if s == [] then 0
    else
      var i := TermIndex(term, s[..|s| - 1]);
      if i == |term| then i else if s[|s| - 1] == term[i] then i + 1 else 0
  }

  ghost predicate TermLive(term: Bytes, s: Bytes)
    requires term != []
  {
    s == [] || TermIndex(term, s[..|s| - 1]) < |term|
  }

  /** The search ends at the terminator after `n` bytes. */
  ghost predicate EndsAfter(term: Bytes, s: Bytes, n: nat)
    requires term != []
  {
    n <= |s| && TermIndex(term, s[..n]) == |term| && TermLive(term, s[..n])
  }

  ghost predicate Uniform(term: Bytes)
    requires term != []
  {
    forall i | 0 <= i < |term| :: term[i] == term[0]
  }

  /** On every stream the search ends at the first occurrence of the terminator's bytes. */
  ghost predicate EndsFirst(term: Bytes)
    requires term != []
  {
    forall s: Bytes, n: nat | Text(s) :: EndsAfter(Chars(term), s, n) <==> FirstOccurrence(term, s, n)
  }

  lemma TermSnoc(term: Bytes, s: Bytes, c: int)
    requires term != []
    ensures var i := TermIndex(term, s);
      TermIndex(term, s + [c]) == if i == |term| then i else if c == term[i] then i + 1 else 0
  {
    assert (s + [c])[..|s|] == s;
  }

  /** The bytes counted by `termIndex` are the last ones read. */
  lemma {:induction false} TermSound(term: Bytes, s: Bytes)
    requires term != [] && TermLive(term, s)
    ensures EndsWith(s, term[..TermIndex(term, s)])
  {
    hide EndsWith;
    if s == [] {
      EndsWithNothing(s);
    } else {
      var front, c := s[..|s| - 1], s[|s| - 1];
      TermSound(term, front) by { TermLiveFront(term, front); }
      assert s == front + [c];
      EndsWithSnoc(front, c, term, TermIndex(term, front));
      EndsWithNothing(s);
    }
  }

  lemma TermLiveFront(term: Bytes, front: Bytes)
    requires term != [] && TermIndex(term, front) < |term|
    ensures TermLive(term, front)
  {
  }

  /** For a uniform terminator the byte that does not match would not match again. */
  lemma {:induction false} UniformIndex(term: Bytes, s: Bytes)
    requires term != [] && Uniform(term)
    ensures TermIndex(term, s) == Index(term, s)
  {
    if s != [] { UniformIndex(term, s[..|s| - 1]); }
  }

  lemma UniformForgetful(term: Bytes)
    requires term != [] && Uniform(term)
    ensures Forgetful(term)
  {
  }

  lemma UniformFinds(term: Bytes, s: Bytes, n: nat)
    requires term != [] && Uniform(term)
    ensures EndsAfter(term, s, n) <==> FirstOccurrence(term, s, n)
  {
    hide FirstOccurrence, Index, TermIndex;
    UniformForgetful(term);
    ForgetfulFinds(term, s, n);
    if n <= |s| {
      UniformIndex(term, s[..n]);
      if n > 0 { UniformIndex(term, s[..n][..n - 1]); }
    }
  }

  lemma EndsAscii(term: Bytes, s: Bytes, n: nat)
    requires term != [] && Text(term) && Text(s) && EndsAfter(Chars(term), s, n)
    ensures Ascii(term)
  {
    TermSound(Chars(term), s[..n]);
    assert Chars(term)[..|term|] == Chars(term);
    forall i: nat | i < |term| ensures term[i] < 128 { EndsWithAt(s[..n], Chars(term), i); }
  }

  /** Reading on raises `termIndex` by at most one a byte. */
  lemma {:induction false} TermSlow(term: Bytes, s: Bytes, more: Bytes)
    requires term != [] && TermIndex(term, s) + |more| < |term|
    ensures TermIndex(term, s + more) <= TermIndex(term, s) + |more|
  {
    if more == [] {
      assert s + more == s;
    } else {
      var front, c := more[..|more| - 1], more[|more| - 1];
      TermSlow(term, s, front);
      TermSnoc(term, s + front, c);
      assert s + more == s + front + [c];
    }
  }

  lemma {:induction false} TermOfPrefix(term: Bytes, k: nat)
    requires term != [] && k < |term|
    ensures TermIndex(term, term[..k]) == k
  {
    if k > 0 {
      TermOfPrefix(term, k - 1);
      assert term[..k] == term[..k - 1] + [term[k - 1]];
      TermSnoc(term, term[..k - 1], term[k - 1]);
    }
  }

  /** With its first byte in front, a terminator that is not uniform is run past. */
  lemma RunsPast(term: Bytes, k: nat)
    requires 0 < k < |term| && term[k] != term[0] && forall i | 0 <= i < k :: term[i] == term[0]
    ensures TermIndex(term, [term[0]] + term) < |term|
  {
    hide TermIndex;
    var s := [term[0]] + term;
    TermOfPrefix(term, k);
    TermSnoc(term, term[..k], term[k - 1]);
    assert s == term[..k] + [term[k - 1]] + term[k..];
    TermSlow(term, term[..k] + [term[k - 1]], term[k..]);
  }

  lemma {:induction false} TermEarlier(term: Bytes, s: Bytes, k: nat)
    requires term != [] && TermIndex(term, s) < |term| && k <= |s|
    ensures TermIndex(term, s[..k]) < |term|
  {
    if k == |s| {
      assert s[..k] == s;
    } else {
      TermEarlier(term, s[..|s| - 1], k);
      assert s[..|s| - 1][..k] == s[..k];
    }
  }

  lemma NotUniformRunsPast(term: Bytes) returns (s: Bytes, n: nat)
    requires term != [] && Text(term) && !Uniform(term)
    ensures Text(s) && FirstOccurrence(term, s, n) && !EndsAfter(term, s, n)
  {
    hide FirstOccurrence, TermIndex, EndsWith;
    var k := FirstOther(term);
    s := [term[0]] + term;
    RunsPast(term, k);
    assert s[..|s|] == s;
    EndsWithBack([term[0]], term);
    n := LeastOccurrence(term, s, |s|);
    LeastInside(term, s, n);
    TermEarlier(term, s, n);
  }

  lemma FirstOther(term: Bytes) returns (k: nat)
    requires term != [] && !Uniform(term)
    ensures 0 < k < |term| && term[k] != term[0] && forall i | 0 <= i < k :: term[i] == term[0]
  {
    k := 1;
    while term[k] == term[0]
      invariant 1 <= k < |term| && (forall i | 0 <= i < k :: term[i] == term[0])
      invariant exists i :: k <= i < |term| && term[i] != term[0]
      decreases |term| - k
    {
      k := k + 1;
    }
  }

  lemma EndsWithBack(a: Bytes, t: Bytes)
    ensures EndsWith(a + t, t)
  {
  }

  /** The search ends at the first occurrence of its terminator on every stream exactly for
      terminators of one repeated byte below 128. */
  lemma TerminatorExact(term: Bytes)
    requires term != [] && Text(term)
    ensures EndsFirst(term) <==> Uniform(term) && Ascii(term)
  {
    hide FirstOccurrence, EndsAfter, Uniform, Text, Ascii;
    if Ascii(term) {
      AsciiChars(term);
      if Uniform(term) {
        forall s: Bytes, n: nat | Text(s) ensures EndsAfter(term, s, n) <==> FirstOccurrence(term, s, n) {
          UniformFinds(term, s, n);
        }
      } else {
        var s, n := NotUniformRunsPast(term);
      }
    } else {
      HighByteMisses(term);
      forall s: Bytes, n: nat | Text(s) ensures EndsAfter(Chars(term), s, n) ==> Ascii(term) {
        if EndsAfter(Chars(term), s, n) { EndsAscii(term, s, n); }
      }
    }
  }
}

module StreamFind {
  import opened Sequences
  import opened StreamFindSpec

  /** A stream that still has `rest` to give before it times out; `taken` was read. */
  class Stream {
    var rest: Bytes
    var taken: Bytes

    constructor (bytes: Bytes)
      ensures rest == bytes && taken == []
    {
      rest, taken := bytes, [];
    }

    method TimedRead() returns (c: int)
      modifies this
      ensures old(rest) == [] ==> c == -1 && rest == [] && taken == old(taken)
      ensures old(rest) != [] ==> c == old(rest)[0] && rest == old(rest)[1..] && taken == old(taken) + [c]
    {
      if rest == [] {
        c := -1;
      } else {
        c := rest[0];
        rest, taken := rest[1..], taken + [c];
      }
    }

    /** `read` is what was taken. True only when the matcher has just found the target; false
        after the terminator, at the end of the stream or at a NUL. Both are chars. */
    method FindUntil(target: Bytes, terminator: Bytes) returns (found: bool, ghost read: Bytes, ghost why: Why)
      requires forall i | 0 <= i < |rest| :: 0 <= rest[i] < 256
      modifies this
      ensures old(rest) == read + rest && taken == old(taken) + read && found == why.Found?
      ensures target == [] || target[0] == 0 ==> found && read == []
      ensures target != [] && target[0] != 0 ==> Outcome(target, terminator, old(rest), read, why)
    {
      hide EndsWith, Index, TermIndex, FoundAfter, Outcome, Scanning, Text, Reading;
      ghost var all, was := rest, taken;
      read := [];
      ReadNothing(was, all);
      if target == [] || target[0] == 0 { return true, [], Found; }
      var index, termIndex := 0, 0;
      ScanStart(target, terminator);
      while true
        invariant Reading(was, all, read, taken, rest)
        invariant index < |target| && (terminator != [] ==> termIndex < |terminator|)
        invariant Scanning(target, terminator, read, index, termIndex)
        decreases |rest|
      {
        ghost var before, ahead := read, rest;
        ReadOn(was, all, read, taken, rest);
        var c := TimedRead();
        if ahead != [] { read := read + [c]; }
        ReadSoFar(was, all, read, taken, rest);
        if c <= 0 {
          EndsHere(target, terminator, all, before, read, c, index, termIndex);
          return false, read, Ended;
        }
        ScanStep(target, terminator, before, c, all, rest, index, termIndex);
        if c != target[index] { index := 0; }
        if c == target[index] {
          index := index + 1;
          if index >= |target| { return true, read, Found; }
        }
        if terminator != [] && c == terminator[termIndex] {
          termIndex := termIndex + 1;
          if termIndex >= |terminator| { return false, read, Terminated; }
        } else {
          termIndex := 0;
        }
      }
    }

    /** `find(target, length)` with the bytes of a text. A target that FindExact admits is found
        right after its first occurrence, and not at all exactly when it does not come before
        the end of the stream or a NUL. */
    method Find(target: Bytes) returns (found: bool, ghost read: Bytes)
      requires target != [] && Text(target)
      requires forall i | 0 <= i < |rest| :: 0 <= rest[i] < 256
      modifies this
      ensures old(rest) == read + rest && taken == old(taken) + read
      ensures found ==> FoundAfter(Chars(target), old(rest), |read|)
      ensures !found ==> Exhausted(old(rest), read) && forall k: nat :: !FoundAfter(Chars(target), read, k)
      ensures found && Forgetful(target) && Ascii(target) ==> FirstOccurrence(target, old(rest), |read|)
      ensures !found && Forgetful(target) && Ascii(target) ==> forall k | 0 <= k <= |read| :: !EndsWith(read[..k], target)
    {
      hide FirstOccurrence, FoundAfter, EndsWith, Forgetful, Text, Ascii, Exhausted, Outcome;
      ghost var why;
      ghost var all := rest;
      CharsStart(target);
      found, read, why := FindUntil(Chars(target), []);
      OutcomeKind(Chars(target), all, read, why);
      if found {
        FoundKind(Chars(target), all, read);
        if Forgetful(target) && Ascii(target) {
          AsciiChars(target);
          ForgetfulFinds(target, all, |read|);
        }
      } else {
        forall k: nat ensures !FoundAfter(Chars(target), read, k) { NoneFound(Chars(target), all, read, k); }
        if Forgetful(target) && Ascii(target) {
          AsciiChars(target);
          forall k: nat | k <= |read| ensures !EndsWith(read[..k], target) { NoOccurrence(target, all, read, k); }
        }
      }
    }
  }

  datatype Why = Found | Terminated | Ended

  ghost predicate Outcome(target: Bytes, terminator: Bytes, all: Bytes, read: Bytes, why: Why)
    requires target != []
  {
    match why
    case Found => Text(read) && FoundAfter(target, all, |read|)
    case Terminated =>
      Text(read) && Index(target, read) < |target| && terminator != [] && EndsAfter(terminator, all, |read|)
    case Ended =>
      || (read == all && Short(target, terminator, read))
      || (read != [] && read[|read| - 1] == 0 && Short(target, terminator, read[..|read| - 1]))
  }

  /** Neither string was matched to its end. */
  ghost predicate Short(target: Bytes, terminator: Bytes, read: Bytes)
    requires target != []
  {
    Text(read) && Index(target, read) < |target| && (terminator != [] ==> TermIndex(terminator, read) < |terminator|)
  }

  /** The stream was read to its end or to its first NUL. */
  ghost predicate Exhausted(all: Bytes, read: Bytes) {
    || (read == all && Text(read))
    || (read != [] && read[|read| - 1] == 0 && Text(read[..|read| - 1]))
  }

  /** What the loop knows: neither string was found, and how far both are matched. */
  ghost predicate Scanning(target: Bytes, terminator: Bytes, read: Bytes, index: nat, termIndex: nat) {
    && target != [] && Short(target, terminator, read)
    && index == Index(target, read) && termIndex == if terminator == [] then 0 else TermIndex(terminator, read)
  }

  lemma ScanStart(target: Bytes, terminator: Bytes)
    requires target != []
    ensures Scanning(target, terminator, [], 0, 0)
  {
  }

  /** The tests of one round decide the next values of `index` and `termIndex`. */
  lemma ScanStep(target: Bytes, terminator: Bytes, before: Bytes, c: int, all: Bytes, rest: Bytes, index: nat,
                 termIndex: nat)
    requires Scanning(target, terminator, before, index, termIndex) && 0 < c < 256 && all == before + [c] + rest
    requires terminator != [] ==> termIndex < |terminator|
    ensures var next := Advance(target, index, c);
      var ahead := if terminator != [] && c == terminator[termIndex] then termIndex + 1 else 0;
      if next == |target| then Outcome(target, terminator, all, before + [c], Found)
      else if 0 < ahead == |terminator| then Outcome(target, terminator, all, before + [c], Terminated)
      else Scanning(target, terminator, before + [c], next, ahead)
  {
    hide Index, TermIndex, FoundAfter, EndsAfter;
    var read := before + [c];
    assert all[..|read|] == read;
    IndexSnoc(target, before, c);
    if terminator != [] { TermSnoc(terminator, before, c); }
    if Index(target, read) == |target| {
      FoundHere(target, all, before, c);
    } else if terminator != [] && TermIndex(terminator, read) == |terminator| {
      TerminatorHere(terminator, all, before, c);
    }
  }

  lemma FoundHere(target: Bytes, all: Bytes, before: Bytes, c: int)
    requires target != [] && |before| < |all| && all[..|before| + 1] == before + [c]
    requires Index(target, before) < |target| == Index(target, before + [c])
    ensures FoundAfter(target, all, |before| + 1)
  {
    assert (before + [c])[..|before|] == before;
  }

  lemma TerminatorHere(terminator: Bytes, all: Bytes, before: Bytes, c: int)
    requires terminator != [] && |before| < |all| && all[..|before| + 1] == before + [c]
    requires TermIndex(terminator, before) < |terminator| == TermIndex(terminator, before + [c])
    ensures EndsAfter(terminator, all, |before| + 1)
  {
    assert (before + [c])[..|before|] == before;
  }

  lemma EndsHere(target: Bytes, terminator: Bytes, all: Bytes, before: Bytes, read: Bytes, c: int, index: nat,
                 termIndex: nat)
    requires Scanning(target, terminator, before, index, termIndex)
    requires if c == -1 then read == before == all else c == 0 && read == before + [c]
    ensures Outcome(target, terminator, all, read, Ended)
  {
    if c == 0 { assert read[..|read| - 1] == before; }
  }

  /** A search for a target that is not in the stream ends at the first occurrence of a uniform
      terminator, and goes on to the end or a NUL only when there is none. */
  lemma EndsAtTerminator(target: Bytes, term: Bytes, all: Bytes, read: Bytes, why: Why)
    requires target != [] && term != [] && Text(term) && Uniform(term) && Ascii(term)
    requires Outcome(target, Chars(term), all, read, why)
    ensures why.Terminated? ==> FirstOccurrence(term, all, |read|)
    ensures why.Ended? ==> forall k | 0 <= k <= |read| :: !EndsWith(read[..k], term)
  {
    AsciiChars(term);
    if why.Terminated? {
      UniformFinds(term, all, |read|);
    } else if why.Ended? {
      TermEndedShort(target, term, all, read);
      forall k: nat | k <= |read| ensures !EndsWith(read[..k], term) { TermNoOccurrence(term, read, k); }
    }
  }

  lemma TermEndedShort(target: Bytes, term: Bytes, all: Bytes, read: Bytes)
    requires target != [] && term != [] && Outcome(target, term, all, read, Ended) && Text(term)
    ensures TermIndex(term, read) < |term|
  {
    if read != [] && read[|read| - 1] == 0 { assert read == read[..|read| - 1] + [0]; }
  }

  lemma TermNoOccurrence(term: Bytes, read: Bytes, k: nat)
    requires term != [] && Uniform(term) && TermIndex(term, read) < |term| && k <= |read|
    ensures !EndsWith(read[..k], term)
  {
    TermEarlier(term, read, k);
    UniformForgetful(term);
    UniformIndex(term, read);
    LiveAll(term, read, k);
    NotYet(term, read[..k]);
  }

  /** `read` went from the front of the stream to the end of what was taken. */
  ghost predicate Reading(was: Bytes, all: Bytes, read: Bytes, taken: Bytes, rest: Bytes) {
    all == read + rest && taken == was + read && forall i | 0 <= i < |rest| :: 0 <= rest[i] < 256
  }

  lemma ReadNothing(was: Bytes, all: Bytes)
    requires forall i | 0 <= i < |all| :: 0 <= all[i] < 256
    ensures Reading(was, all, [], was, all)
  {
  }

  lemma ReadOn(was: Bytes, all: Bytes, read: Bytes, taken: Bytes, rest: Bytes)
    requires Reading(was, all, read, taken, rest)
    ensures rest == [] ==> read == all
    ensures rest != [] ==>
      && 0 <= rest[0] < 256
      && Reading(was, all, read + [rest[0]], taken + [rest[0]], rest[1..])
  {
    if rest != [] {
      assert rest == [rest[0]] + rest[1..];
      assert all == read + [rest[0]] + rest[1..];
    }
  }

  lemma ReadSoFar(was: Bytes, all: Bytes, read: Bytes, taken: Bytes, rest: Bytes)
    requires Reading(was, all, read, taken, rest)
    ensures all == read + rest && taken == was + read
  {
  }

  lemma CharsStart(target: Bytes)
    requires target != [] && Text(target)
    ensures Chars(target) != [] && forall i | 0 <= i < |Chars(target)| :: Chars(target)[i] != 0
  {
  }

  lemma OutcomeKind(target: Bytes, all: Bytes, read: Bytes, why: Why)
    requires target != [] && Outcome(target, [], all, read, why)
    ensures !why.Found? ==> why.Ended? && Exhausted(all, read)
  {
  }

  lemma FoundKind(target: Bytes, all: Bytes, read: Bytes)
    requires target != [] && Outcome(target, [], all, read, Found)
    ensures FoundAfter(target, all, |read|)
  {
  }

  /** The whole of `read`, or all but its closing NUL, left the matcher short of the target. */
  lemma EndedShort(target: Bytes, all: Bytes, read: Bytes)
    requires target != [] && Outcome(target, [], all, read, Ended) && forall i | 0 <= i < |target| :: target[i] != 0
    ensures Index(target, read) < |target|
  {
    if read != [] && read[|read| - 1] == 0 { NulResets(target, read); }
  }

  lemma NulResets(target: Bytes, read: Bytes)
    requires target != [] && forall i | 0 <= i < |target| :: target[i] != 0
    requires read != [] && read[|read| - 1] == 0 && Index(target, read[..|read| - 1]) < |target|
    ensures Index(target, read) < |target|
  {
  }

  lemma NoneFound(target: Bytes, all: Bytes, read: Bytes, k: nat)
    requires target != [] && Outcome(target, [], all, read, Ended) && forall i | 0 <= i < |target| :: target[i] != 0
    ensures !FoundAfter(target, read, k)
  {
    EndedShort(target, all, read);
    if k <= |read| { NeverFound(target, read, k); }
  }

  lemma NoOccurrence(target: Bytes, all: Bytes, read: Bytes, k: nat)
    requires target != [] && Forgetful(target) && Outcome(target, [], all, read, Ended) && k <= |read|
    requires forall i | 0 <= i < |target| :: target[i] != 0
    ensures !EndsWith(read[..k], target)
  {
    EndedShort(target, all, read);
    LiveAll(target, read, k);
    NotYet(target, read[..k]);
  }

  lemma LiveAll(target: Bytes, all: Bytes, k: nat)
    requires target != [] && Index(target, all) < |target| && k <= |all|
    ensures Live(target, all[..k]) && Index(target, all[..k]) < |target|
  {
    if k < |all| { LiveEarlier(target, all, k); } else { assert all[..k] == all; }
  }
}
