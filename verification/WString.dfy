/** hardware/arduino/cores/arduino/WString.cpp: the String class over a heap buffer. */
module WString {
  import opened Arithmetic
  import opened TextReplace

  // realloc cannot hand out an object larger than what a 16-bit ptrdiff_t can index.
  const INT_MAX := 32767
  const UINT_MAX := 65535

  /** A number in the 16 bits of an `unsigned int`. */
  function Wrapped(n: nat): nat { n % (UINT_MAX + 1) }

  lemma WrappedAdd(n: nat, d: nat)
    ensures Wrapped(Wrapped(n) + d) == Wrapped(n + d)
  {
    AddMod(n, d, UINT_MAX + 1);
  }

  /** The bytes that are asked for: the NUL is added in 16 bits. */
  function BlockSize(maxStrLen: nat): nat { Wrapped(maxStrLen + 1) }

  // ---------------------------------------------------------------- C library routines

  /** The characters from `from` end at the NUL stored at `nul`. */
  ghost predicate CStr(a: array<char>, from: nat, nul: nat)
    reads a
  {
    from <= nul < a.Length && a[nul] == '\0' && forall i | from <= i < nul :: a[i] != '\0'
  }

  lemma NoNulIsCStr(a: array<char>, n: nat)
    requires n < a.Length && a[n] == '\0' && NoNul(a[..n])
    ensures CStr(a, 0, n)
  {
    assert forall i | 0 <= i < n :: a[i] == a[..n][i];
  }

  method MatchesAt(hay: array<char>, at: nat, needle: array<char>, ghost nul: nat, ghost n: nat)
    returns (same: bool)
    requires CStr(hay, at, nul) && CStr(needle, 0, n)
    ensures same <==> OccursAt(hay[..nul], needle[..n], at)
  {
    var x := 0;
    while needle[x] != '\0'
      invariant 0 <= x <= n && at + x <= nul
      invariant forall y | 0 <= y < x :: hay[at + y] == needle[y]
      decreases n - x
    {
      if hay[at + x] != needle[x] {
        assert at + n <= nul ==> hay[..nul][at + x] != needle[..n][x];
        return false;
      }
      x := x + 1;
    }
    return true;
  }

  /** strstr: the first match at or after `from`, or -1. */
  method Strstr(hay: array<char>, from: nat, needle: array<char>, ghost nul: nat, ghost n: nat)
    returns (at: int)
    requires CStr(hay, from, nul) && CStr(needle, 0, n) && n > 0
    ensures at < 0 ==> forall j | from <= j :: !OccursAt(hay[..nul], needle[..n], j)
    ensures at >= 0 ==> from <= at && OccursAt(hay[..nul], needle[..n], at)
                        && forall j | from <= j < at :: !OccursAt(hay[..nul], needle[..n], j)
  {
    at := from;
    while hay[at] != '\0'
      invariant from <= at <= nul
      invariant forall j | from <= j < at :: !OccursAt(hay[..nul], needle[..n], j)
      decreases nul - at
    {
      var same := MatchesAt(hay, at, needle, nul, n);
      if same { return; }
      at := at + 1;
    }
    at := -1;
  }

  /** memcpy from another buffer. */
  method CopyIn(dst: array<char>, at: nat, src: array?<char>, n: nat)
    requires at + n <= dst.Length
    requires n > 0 ==> src != null && src != dst && n <= src.Length
    modifies dst
    ensures forall i | at <= i < at + n :: dst[i] == src[i - at]
    ensures forall i | 0 <= i < dst.Length && !(at <= i < at + n) :: dst[i] == old(dst[i])
  {
    for k := 0 to n
      invariant forall i | at <= i < at + k :: dst[i] == src[i - at]
      invariant forall i | 0 <= i < dst.Length && !(at <= i < at + k) :: dst[i] == old(dst[i])
    {
      dst[at + k] := src[k];
    }
  }

  /** memcpy or strcpy towards the front of one buffer, in ascending order. */
  method MoveDown(buf: array<char>, to: nat, from: nat, n: nat)
    requires to <= from && from + n <= buf.Length
    modifies buf
    ensures forall i | to <= i < to + n :: buf[i] == old(buf[i - to + from])
    ensures forall i | 0 <= i < buf.Length && !(to <= i < to + n) :: buf[i] == old(buf[i])
  {
    for k := 0 to n
      invariant forall i | to <= i < to + k :: buf[i] == old(buf[i - to + from])
      invariant forall i | 0 <= i < buf.Length && !(to <= i < to + k) :: buf[i] == old(buf[i])
    {
      buf[to + k] := buf[from + k];
    }
  }

  /** strcpy towards the front of one buffer, the NUL included. */
  method StrcpyDown(buf: array<char>, to: nat, from: nat, ghost nul: nat)
    requires to <= from && CStr(buf, from, nul)
    modifies buf
    ensures forall i | to <= i <= to + (nul - from) :: buf[i] == old(buf[i - to + from])
    ensures forall i | 0 <= i < buf.Length && !(to <= i <= to + (nul - from)) :: buf[i] == old(buf[i])
  {
    ghost var was := buf[..];
    assert was[nul] == '\0' && forall i | from <= i < nul :: was[i] != '\0';
    var k := 0;
    while buf[from + k] != '\0'
      invariant from + k <= nul
      invariant forall i | to <= i < to + k :: buf[i] == was[i - to + from]
      invariant forall i | 0 <= i < buf.Length && !(to <= i < to + k) :: buf[i] == was[i]
      decreases nul - from - k
    {
      buf[to + k] := buf[from + k];
      k := k + 1;
    }
    buf[to + k] := '\0';
  }

  /** memmove towards the end of one buffer, in descending order. */
  method MoveUp(buf: array<char>, to: nat, from: nat, n: nat)
    requires from <= to && to + n <= buf.Length
    modifies buf
    ensures forall i | to <= i < to + n :: buf[i] == old(buf[i - (to - from)])
    ensures forall i | 0 <= i < buf.Length && !(to <= i < to + n) :: buf[i] == old(buf[i])
  {
    for k := n downto 0
      invariant forall i | to + k <= i < to + n :: buf[i] == old(buf[i - (to - from)])
      invariant forall i | 0 <= i < buf.Length && !(to + k <= i < to + n) :: buf[i] == old(buf[i])
    {
      buf[to + k] := buf[from + k];
    }
  }

  // ---------------------------------------------------------------- steps of the scans

  /** Texts that agree from `from` on have the same matches there. */
  lemma MatchesAgree(b: string, s: string, find: string, from: nat)
    requires from <= |b| == |s| && b[from..] == s[from..]
    ensures forall j | from <= j :: OccursAt(b, find, j) <==> OccursAt(s, find, j)
  {
    forall i | from <= i < |s| ensures b[i] == s[i] {
      assert b[from..][i - from] == s[from..][i - from];
    }
  }

  /** `done` is the edited form of everything before `from`. */
  ghost predicate Scanned(done: string, s: string, from: nat, find: string, rep: string)
    requires |find| > 0 && from <= |s|
  {
    ReplaceAll(s, find, rep) == done + ReplaceAll(s[from..], find, rep)
  }

  lemma ScanStart(s: string, find: string, rep: string)
    requires |find| > 0
    ensures Scanned([], s, 0, find, rep)
  {
    assert s[0..] == s && [] + ReplaceAll(s, find, rep) == ReplaceAll(s, find, rep);
  }

  /** The first match at or after `from` is the first one of the text that starts there. */
  lemma FirstFrom(s: string, find: string, from: nat, at: nat)
    requires from <= at && OccursAt(s, find, at)
    requires forall j | from <= j < at :: !OccursAt(s, find, j)
    ensures OccursAt(s[from..], find, at - from)
    ensures forall j | 0 <= j < at - from :: !OccursAt(s[from..], find, j)
  {
    OccursShift(s, find, from, at - from);
    forall j: nat | j < at - from ensures !OccursAt(s[from..], find, j) {
      OccursShift(s, find, from, j);
    }
  }

  lemma SliceOfDrop(s: string, from: nat, at: nat, n: nat)
    requires from <= at <= at + n <= |s|
    ensures s[from..][..at - from] == s[from..at]
    ensures s[from..][at - from + n..] == s[at + n..]
  {
  }

  /** `at` is the first match at or after `from`, or negative when there is none. */
  ghost predicate NextMatch(s: string, find: string, from: nat, at: int) {
    if at < 0 then forall j | from <= j :: !OccursAt(s, find, j)
    else from <= at && OccursAt(s, find, at) && forall j | from <= j < at :: !OccursAt(s, find, j)
  }

  lemma ScanStep(done: string, s: string, find: string, rep: string, from: nat, at: nat)
    requires |find| > 0 && NextMatch(s, find, from, at) && Scanned(done, s, from, find, rep)
    ensures from <= at && at + |find| <= |s|
    ensures Scanned(done + s[from..at] + rep, s, at + |find|, find, rep)
  {
    hide ReplaceAll;
    FirstFrom(s, find, from, at);
    ReplaceAllFirst(s[from..], find, rep, at - from);
    SliceOfDrop(s, from, at, |find|);
    Regroup(done, s[from..at], rep, ReplaceAll(s[at + |find|..], find, rep));
  }

  lemma ScanEnd(done: string, s: string, find: string, rep: string, from: nat, at: int)
    requires |find| > 0 && from <= |s| && Scanned(done, s, from, find, rep)
    requires at < 0 && NextMatch(s, find, from, at)
    ensures ReplaceAll(s, find, rep) == done + s[from..]
  {
    forall j: nat | j < |s[from..]| ensures !OccursAt(s[from..], find, j) {
      OccursShift(s, find, from, j);
    }
    ReplaceAllNone(s[from..], find, rep);
  }

  lemma {:induction false} LastAtMostSkip(s: string, find: string, a: int, b: int)
    requires a <= b && forall j | a < j <= b :: !OccursAt(s, find, j)
    ensures LastAtMost(s, find, b) == LastAtMost(s, find, a)
    decreases b - a
  {
    if a < b && b >= 0 {
      LastAtMostSkip(s, find, a, b - 1);
    }
  }

  /** What the next match tells about the last one. */
  lemma ScanForward(s: string, find: string, p: nat, at: int, from: nat)
    requires NextMatch(s, find, p, at) && p <= from
    ensures at >= 0 ==> p <= at && at + |find| <= |s|
    ensures 0 <= at <= from ==> LastAtMost(s, find, at) == at
    ensures at < 0 || at > from ==> LastAtMost(s, find, from) == LastAtMost(s, find, p - 1)
  {
    if at < 0 || at > from { LastAtMostSkip(s, find, p - 1, from); }
  }

  predicate IsSpace(c: char) {
    c == ' ' || '\t' <= c <= '\r'
  }

  /** `isspace` in the C locale. */
  lemma SpacesAre(c: char)
    ensures IsSpace(c) <==> c in [' ', '\t', '\n', '\U{0B}', '\U{0C}', '\r']
  {
  }

  /** `t` is `s[b..e]`: everything outside is white space, its own ends are not. */
  ghost predicate TrimmedTo(s: string, t: string, b: int, e: int) {
    && 0 <= b <= e <= |s| && t == s[b..e]
    && (b < e ==> !IsSpace(s[b]) && !IsSpace(s[e - 1]))
    && (forall i | 0 <= i < b || e <= i < |s| :: IsSpace(s[i]))
  }

  class ArduinoString {
    var buffer: array?<char>
    var capacity: nat
    var len: nat

    /** NUL-terminated at `len`, no NUL before it, and never longer than the capacity. */
    ghost predicate Valid()
      reads this, buffer
    {
      && (buffer == null ==> capacity == 0 && len == 0)
      && (buffer != null ==>
            && len <= capacity < INT_MAX && buffer.Length == capacity + 1
            && CStr(buffer, 0, len))
    }

    ghost function Contents(): string
      reads this, buffer
      requires Valid()
    {
      if buffer == null then [] else buffer[..len]
    }

    constructor ()
      ensures Valid() && Contents() == [] && buffer == null
    {
      buffer, capacity, len := null, 0, 0;
    }

    method Invalidate()
      modifies this
      ensures Valid() && Contents() == [] && buffer == null
    {
      buffer, capacity, len := null, 0, 0;
    }

    /** realloc; `granted` says whether the heap still has room. The size of the block is counted
        in 16 bits, so that for a length of 65535 there is nothing behind the buffer. */
    method ChangeBuffer(maxStrLen: nat, granted: bool) returns (ok: bool)
      requires Valid() && capacity <= maxStrLen <= UINT_MAX
      modifies this
      ensures ok == (granted && BlockSize(maxStrLen) <= 32767)
      ensures !ok ==> buffer == old(buffer) && capacity == old(capacity)
      ensures ok ==> buffer != null && fresh(buffer) && capacity == maxStrLen && buffer.Length == BlockSize(maxStrLen)
      ensures ok ==> (buffer.Length == capacity + 1 <==> maxStrLen < UINT_MAX)
      ensures len == old(len)
      ensures ok && maxStrLen < UINT_MAX && old(buffer) != null ==>
                forall i | 0 <= i <= len :: buffer[i] == old(buffer[i])
    {
      ok := granted && BlockSize(maxStrLen) <= INT_MAX;
      if ok {
        var grown := new char[BlockSize(maxStrLen)];
        if buffer != null {
          CopyIn(grown, 0, buffer, if grown.Length <= capacity then grown.Length else capacity + 1);
        }
        buffer, capacity := grown, maxStrLen;
      }
    }

    /** A length of 65535 is promised and not there. */
    method Reserve(size: nat, granted: bool) returns (ok: bool)
      requires Valid() && size <= UINT_MAX
      modifies this, buffer
      ensures ok == (old(buffer != null && capacity >= size) || (granted && BlockSize(size) <= INT_MAX))
      ensures !ok || size < UINT_MAX ==> Valid() && Contents() == old(Contents())
      ensures ok ==> buffer != null && capacity >= size
      ensures ok && size == UINT_MAX ==> buffer.Length == 0 && !Valid()
      ensures buffer == old(buffer) || (buffer != null && fresh(buffer))
    {
      if buffer != null && capacity >= size { return true; }
      ok := ChangeBuffer(size, granted);
      if ok {
        // Without a block the source stores its NUL outside.
        if len == 0 && buffer.Length > 0 { buffer[0] := '\0'; }
      }
    }

    /** Another object that owns another buffer. */
    ghost predicate Apart(other: ArduinoString)
      reads this, other
    {
      other != this && (other.buffer == null || other.buffer != buffer)
    }

    /** copy() from characters [left, right) of another buffer, NUL-terminated there. */
    method Copy(src: array<char>, left: nat, ghost right: nat, granted: bool)
      requires Valid() && CStr(src, left, right) && src != buffer && right - left < UINT_MAX
      modifies this, buffer
      ensures Valid() && (buffer == null || buffer == old(buffer) || fresh(buffer))
      ensures Contents() == if old(buffer != null && capacity >= right - left)
                               || (granted && right - left < INT_MAX)
                            then src[left..right] else []
    {
      var length := 0;
      while src[left + length] != '\0'
        invariant left + length <= right
        decreases right - left - length
      {
        length := length + 1;
      }
      var ok := Reserve(length, granted);
      if !ok {
        Invalidate();
        return;
      }
      len := length;
      for k := 0 to length + 1
        invariant buffer != null && (buffer == old(buffer) || fresh(buffer)) && buffer != src
        invariant len == length <= capacity < INT_MAX && buffer.Length == capacity + 1
        invariant forall i | 0 <= i < k :: buffer[i] == src[left + i]
      {
        buffer[k] := src[left + k];
      }
    }

    /** concat(const String&): false and no change when there is nothing to read or no room. */
    method Concat(other: ArduinoString, granted: bool) returns (ok: bool)
      requires Valid() && other.Valid() && Apart(other)
      modifies this, buffer
      ensures Valid()
      ensures Contents() == old(Contents()) + if ok then other.Contents() else []
      ensures ok <==> other.buffer != null
                      && (other.len == 0 || old(buffer != null && capacity >= len + other.len)
                          || (granted && old(len) + other.len < INT_MAX))
    {
      var newlen := len + other.len;
      if other.buffer == null { return false; }
      if other.len == 0 { return true; }
      ok := Reserve(newlen, granted);
      if !ok { return; }
      Append(other);
    }

    /** strcpy behind the text, the NUL included. */
    method Append(other: ArduinoString)
      requires Valid() && other.Valid() && Apart(other) && buffer != null && other.buffer != null
      requires len + other.len <= capacity
      modifies this`len, buffer
      ensures Valid() && Contents() == old(Contents()) + other.Contents()
    {
      ghost var t, u := Contents(), other.Contents();
      CopyIn(buffer, len, other.buffer, other.len + 1);
      len := len + other.len;
      Appended(t, u, buffer[..len]);
      NoNulIsCStr(buffer, len);
    }

    /** substring: ends in either order, clamped. Without a buffer it needs ends above 0. */
    method Substring(left0: nat, right0: nat, granted: bool) returns (out: ArduinoString)
      requires Valid() && (buffer != null || (left0 > 0 && right0 > 0))
      modifies buffer
      ensures Valid() && Contents() == old(Contents())
      ensures fresh(out) && out.Valid() && (out.buffer == null || fresh(out.buffer))
      ensures var lo, hi := if left0 > right0 then right0 else left0,
                            if left0 > right0 then left0 else right0;
              var end := if hi > len then len else hi;
              out.Contents() == if lo <= len && granted then Contents()[lo..end] else []
    {
      var left, right := left0, right0;
      if left > right { left, right := right, left; }
      out := new ArduinoString();
      if left > len { return; }
      if right > len { right := len; }
      AssignPart(out, left, right, granted);
    }

    /** Lines 545-548: the NUL that is poked in behind the part is taken back. */
    method AssignPart(out: ArduinoString, left: nat, right: nat, granted: bool)
      requires Valid() && buffer != null && left <= right <= len && out != this && out.buffer == null && out.Valid()
      modifies buffer, out
      ensures Valid() && Contents() == old(Contents()) && out.Valid() && (out.buffer == null || fresh(out.buffer))
      ensures out.Contents() == if granted then Contents()[left..right] else []
    {
      ghost var was := buffer[..];
      var temp := buffer[right];
      buffer[right] := '\0';
      assert buffer[left..right] == was[left..right];
      out.Copy(buffer, left, right, granted);
      buffer[right] := temp;
      assert buffer[..] == was;
      Restored(was, buffer[..], len, left, right);
    }

    /** trim: exactly the white space at both ends goes. */
    method Trim()
      requires Valid()
      modifies this`len, buffer
      ensures Valid()
      ensures exists b, e :: TrimmedTo(old(Contents()), Contents(), b, e)
    {
      hide IsSpace, NoNul;
      ghost var s := Contents();
      if buffer == null || len == 0 {
        assert TrimmedTo(s, Contents(), 0, 0);
        return;
      }
      var begin := SkipSpaces();
      var end := SkipSpacesBack(begin);
      Keep(begin, end);
      assert TrimmedTo(s, Contents(), begin, end);
    }

    method SkipSpaces() returns (begin: nat)
      requires Valid() && buffer != null
      ensures begin <= len && forall i | 0 <= i < begin :: IsSpace(Contents()[i])
      ensures begin < len ==> !IsSpace(Contents()[begin])
    {
      begin := 0;
      while IsSpace(buffer[begin])
        invariant begin <= len && forall i | 0 <= i < begin :: IsSpace(buffer[i])
        decreases len - begin
      {
        begin := begin + 1;
      }
    }

    /** The end of what is left in front of the white space. */
    method SkipSpacesBack(begin: nat) returns (end: nat)
      requires Valid() && buffer != null && 0 < len && begin <= len
      requires begin < len ==> !IsSpace(Contents()[begin])
      ensures begin <= end <= len && forall i | end <= i < len :: IsSpace(Contents()[i])
      ensures begin < end ==> !IsSpace(Contents()[end - 1])
    {
      var last: int := len - 1;
      while IsSpace(buffer[last]) && last >= begin
        invariant begin - 1 <= last < len && last >= 0
        invariant forall i | last < i < len :: IsSpace(buffer[i])
        decreases last
      {
        last := last - 1;
      }
      end := last + 1;
    }

    /** Only the characters [begin, end) stay. */
    method Keep(begin: nat, end: nat)
      requires Valid() && buffer != null && begin <= end <= len
      modifies this`len, buffer
      ensures Valid() && Contents() == old(Contents()[begin..end])
    {
      ghost var t := Contents()[begin..end];
      ghost var b := buffer[..];
      len := end - begin;
      if begin > 0 {
        MoveDown(buffer, 0, begin, len);
      }
      buffer[len] := '\0';
      Kept(b, buffer[..len], t, begin, end);
      NoNulIsCStr(buffer, len);
    }

    // ---------------------------------------------------------------- searching

    /** lastIndexOf(const String&, unsigned int). */
    method LastIndexOf(s2: ArduinoString, fromIndex: nat) returns (found: int)
      requires Valid() && s2.Valid()
      ensures s2.len == 0 || len == 0 ==> found == -1
      ensures s2.len > 0 && len > 0 ==>
                found == LastAtMost(Contents(), s2.Contents(), if fromIndex >= len then len - 1 else fromIndex)
    {
      if s2.len == 0 || len == 0 { return -1; }
      var from := if fromIndex >= len then len - 1 else fromIndex;
      if s2.len > len {
        LastAtMostSkip(Contents(), s2.Contents(), -1, from);
        return -1;
      }
      hide OccursAt, LastAtMost, NextMatch, CStr;
      found := -1;
      var p := 0;
      while p <= from
        invariant p <= len
        invariant p <= from + 1 ==> found == LastAtMost(Contents(), s2.Contents(), p - 1)
        invariant p > from ==> found == LastAtMost(Contents(), s2.Contents(), from)
        decreases len - p
      {
        var at := FindNext(s2, p, Contents());
        ScanForward(Contents(), s2.Contents(), p, at, from);
        if at < 0 { return; }
        if at <= from { found := at; }
        p := at + 1;
      }
    }

    // ---------------------------------------------------------------- replace

    /** strstr from `readFrom` on, where the buffer still holds what the text `s` had there. */
    method FindNext(find: ArduinoString, readFrom: nat, ghost s: string) returns (at: int)
      requires buffer != null && CStr(buffer, readFrom, |s|) && find.Valid() && find.len > 0
      requires buffer[..|s|][readFrom..] == s[readFrom..]
      ensures NextMatch(s, find.Contents(), readFrom, at)
    {
      hide OccursAt;
      at := Strstr(buffer, readFrom, find.buffer, |s|, find.len);
      assert find.buffer[..find.len] == find.Contents();
      MatchesAgree(buffer[..|s|], s, find.Contents(), readFrom);
    }

    /** The branch for texts of equal length: overwrite each match where it stands. */
    method ReplaceSame(find: ArduinoString, rep: ArduinoString)
      requires Valid() && find.Valid() && rep.Valid() && Apart(find) && Apart(rep)
      requires len > 0 && rep.len == find.len > 0
      modifies buffer
      ensures Valid() && Contents() == ReplaceAll(old(Contents()), find.Contents(), rep.Contents())
    {
      hide ReplaceAll, OccursAt, Scanned, NextMatch;
      ghost var s, f, r, done := Contents(), find.Contents(), rep.Contents(), [];
      var readFrom, foundAt := 0, 0;
      ScanStart(s, f, r);
      while true
        invariant readFrom <= len == |s| && Valid()
        invariant find.Contents() == f && rep.Contents() == r
        invariant buffer[..len][..readFrom] == done && buffer[..len][readFrom..] == s[readFrom..]
        invariant Scanned(done, s, readFrom, f, r)
        decreases len - readFrom
      {
        foundAt := FindNext(find, readFrom, s);
        if foundAt < 0 { break; }
        ScanStep(done, s, f, r, readFrom, foundAt);
        Overwrite(rep, readFrom, foundAt, s);
        done := done + s[readFrom..foundAt] + r;
        readFrom := foundAt + rep.len;
      }
      ScanEnd(done, s, f, r, readFrom, foundAt);
      assert buffer[..len] == buffer[..len][..readFrom] + buffer[..len][readFrom..];
    }

    /** Line 572: the match at `at` becomes `rep`. */
    method Overwrite(rep: ArduinoString, from: nat, at: nat, ghost s: string)
      requires Valid() && rep.Valid() && Apart(rep) && buffer != null && len == |s|
      requires from <= at && at + rep.len <= len && buffer[..len][from..] == s[from..]
      modifies buffer
      ensures Valid() && buffer[..len][at + rep.len..] == s[at + rep.len..]
      ensures buffer[..len][..at + rep.len] == old(buffer[..len][..from]) + s[from..at] + rep.Contents()
    {
      ghost var b, r := buffer[..len], rep.Contents();
      CopyIn(buffer, at, rep.buffer, rep.len);
      Overwritten(b, buffer[..len], s, r, from, at);
      WrittenNoNul(b, buffer[..len], r, at);
      NoNulIsCStr(buffer, len);
    }

    /** Lines 578-582: move the unmatched characters down and write `rep` behind them. */
    method Compact(rep: ArduinoString, to: nat, from: nat, at: nat, n: nat, ghost s: string)
      requires buffer != null && rep.Valid() && Apart(rep) && CStr(buffer, from, |s|)
      requires to <= from <= at <= at + n <= |s| && rep.len <= n
      requires buffer[..|s|][from..] == s[from..]
      modifies buffer
      ensures CStr(buffer, at + n, |s|) && buffer[..|s|][at + n..] == s[at + n..]
      ensures buffer[..|s|][..to + (at - from) + rep.len]
           == old(buffer[..|s|][..to]) + s[from..at] + rep.Contents()
    {
      ghost var b, r := buffer[..|s|], rep.Contents();
      MoveDown(buffer, to, from, at - from);
      ghost var m := buffer[..|s|];
      CopyIn(buffer, to + (at - from), rep.buffer, rep.len);
      Compacted(b, m, buffer[..|s|], s, r, to, from, at, n);
    }

    /** Line 586: the unread tail follows what was written. */
    method CloseUp(to: nat, from: nat, ghost s: string)
      requires buffer != null && buffer.Length == capacity + 1 && len <= capacity < INT_MAX
      requires CStr(buffer, from, |s|) && buffer[..|s|][from..] == s[from..]
      requires to <= from && len == to + (|s| - from)
      requires NoNul(buffer[..|s|][..to] + s[from..])
      modifies buffer
      ensures Valid() && Contents() == old(buffer[..|s|][..to]) + s[from..]
    {
      ghost var b := buffer[..|s|];
      StrcpyDown(buffer, to, from, |s|);
      Closed(b, buffer[..len], s, to, from);
      NoNulIsCStr(buffer, len);
    }

    /** The shrinking branch: compact towards the front while reading ahead. */
    method ReplaceShrinking(find: ArduinoString, rep: ArduinoString)
      requires Valid() && find.Valid() && rep.Valid() && Apart(find) && Apart(rep)
      requires len > 0 && rep.len < find.len
      modifies this, buffer
      ensures Valid() && buffer == old(buffer) && capacity == old(capacity)
      ensures Contents() == ReplaceAll(old(Contents()), find.Contents(), rep.Contents())
    {
      hide ReplaceAll, OccursAt, Scanned, NextMatch;
      ghost var s, f, r, done := Contents(), find.Contents(), rep.Contents(), [];
      var readFrom, writeTo, foundAt := 0, 0, 0;
      ScanStart(s, f, r);
      while true
        invariant buffer != null && buffer == old(buffer) && capacity == old(capacity)
        invariant 0 <= writeTo <= readFrom <= |s| < buffer.Length
        invariant len == |s| - (readFrom - writeTo)
        invariant CStr(buffer, readFrom, |s|)
        invariant find.Valid() && find.Contents() == f && rep.Valid() && rep.Contents() == r
        invariant buffer[..|s|][..writeTo] == done && buffer[..|s|][readFrom..] == s[readFrom..]
        invariant Scanned(done, s, readFrom, f, r)
        decreases |s| - readFrom
      {
        foundAt := FindNext(find, readFrom, s);
        if foundAt < 0 { break; }
        ScanStep(done, s, f, r, readFrom, foundAt);
        Compact(rep, writeTo, readFrom, foundAt, find.len, s);
        done := done + s[readFrom..foundAt] + r;
        writeTo := writeTo + (foundAt - readFrom) + rep.len;
        readFrom := foundAt + find.len;
        len := len - (find.len - rep.len);
      }
      ScanEnd(done, s, f, r, readFrom, foundAt);
      ReplaceAllNoNul(s, f, r);
      CloseUp(writeTo, readFrom, s);
    }

    /** The left-to-right pass of the growing branch: the length the result will have, in the 16
        bits of an `unsigned int`. */
    method GrownSize(find: ArduinoString, rep: ArduinoString) returns (size: nat)
      requires Valid() && find.Valid() && rep.Valid()
      requires len > 0 && rep.len > find.len > 0
      ensures size == Wrapped(|ReplaceAll(Contents(), find.Contents(), rep.Contents())|)
    {
      hide ReplaceAll, OccursAt, Scanned, NextMatch, Wrapped;
      ghost var s, f, r, done := Contents(), find.Contents(), rep.Contents(), [];
      var readFrom, foundAt := 0, 0;
      size := len;
      SmallSizes(len);
      ScanStart(s, f, r);
      while true
        invariant 0 <= readFrom <= len
        invariant Scanned(done, s, readFrom, f, r)
        invariant readFrom <= |done| && size == Wrapped(|done| - readFrom + len)
        decreases len - readFrom
      {
        foundAt := FindNext(find, readFrom, s);
        if foundAt < 0 { break; }
        ScanStep(done, s, f, r, readFrom, foundAt);
        WrappedAdd(|done| - readFrom + len, rep.len - find.len);
        done := done + s[readFrom..foundAt] + r;
        readFrom := foundAt + find.len;
        size := Wrapped(size + (rep.len - find.len));
      }
      ScanEnd(done, s, f, r, readFrom, foundAt);
    }

    /** Lines 597-600: move the characters from `readFrom` on, and the NUL, up by `diff`. */
    method OpenGap(readFrom: nat, diff: nat)
      requires Valid() && buffer != null && readFrom <= len && len + diff <= capacity
      modifies this`len, buffer
      ensures len == old(len) + diff && buffer[len] == '\0'
      ensures Gap(old(Contents()), buffer[..len], readFrom, diff)
    {
      MoveUp(buffer, readFrom + diff, readFrom, len - readFrom);
      len := len + diff;
      buffer[len] := '\0';
    }

    lemma ContentsNoNul()
      requires Valid()
      ensures NoNul(Contents())
    {
    }

    method FillIn(rep: ArduinoString, at: nat)
      requires buffer != null && rep.Valid() && Apart(rep) && at + rep.len <= len < buffer.Length
      modifies buffer
      ensures Filled(old(buffer[..len]), buffer[..len], rep.Contents(), at) && buffer[len] == old(buffer[len])
    {
      CopyIn(buffer, at, rep.buffer, rep.len);
    }

    /** Lines 597-601: replace the match at `at` by the longer text `rep`. */
    method Splice(rep: ArduinoString, at: nat, n: nat)
      requires Valid() && rep.Valid() && Apart(rep) && buffer != null
      requires at + n <= len && n <= rep.len && len + (rep.len - n) <= capacity
      modifies this`len, buffer
      ensures Valid()
      ensures Contents() == old(Contents()[..at]) + rep.Contents() + old(Contents()[at + n..])
    {
      hide Gap, Filled, CStr, NoNul;
      ghost var t, r := Contents(), rep.Contents();
      ContentsNoNul();
      rep.ContentsNoNul();
      OpenGap(at + n, rep.len - n);
      ghost var moved := buffer[..len];
      FillIn(rep, at);
      Spliced(t, moved, buffer[..len], r, at, n);
      SplicedNoNul(t, r, at, n);
      NoNulIsCStr(buffer, len);
    }

    /** Lines 595-603: the walk itself, in a buffer that is long enough for it. */
    method ReplaceFromRight(find: ArduinoString, rep: ArduinoString)
      requires Valid() && find.Valid() && rep.Valid() && Apart(find) && Apart(rep)
      requires len > 0 && rep.len > find.len > 0
      requires |WalkBack(Contents(), find.Contents(), rep.Contents(), len - 1)| <= capacity
      modifies this`len, buffer
      ensures Valid()
      ensures Contents() == WalkBack(old(Contents()), find.Contents(), rep.Contents(), old(len) - 1)
    {
      hide ReplaceAll, OccursAt, WalkBack, LastAtMost, CStr, NoNul;
      ghost var goal := WalkBack(Contents(), find.Contents(), rep.Contents(), len - 1);
      var index := len - 1;
      while index >= 0
        invariant -1 <= index < len && Valid() && find.Valid() && rep.Valid()
        invariant find.Contents() == old(find.Contents()) && rep.Contents() == old(rep.Contents())
        invariant WalkBack(Contents(), find.Contents(), rep.Contents(), index) == goal
        decreases index
      {
        ghost var t, f, r := Contents(), find.Contents(), rep.Contents();
        ghost var bound := index;
        index := LastIndexOf(find, index);
        if index < 0 {
          WalkBackStep(t, f, r, bound);
          break;
        }
        WalkRound(t, f, r, bound, index);
        Splice(rep, index, find.len);
        index := index - 1;
      }
      WalkBackStep(Contents(), find.Contents(), rep.Contents(), index);
    }

    /** The growing branch. The buffer that was sized for it must hold what the walk writes. */
    method ReplaceGrowing(find: ArduinoString, rep: ArduinoString, granted: bool)
      requires Valid() && find.Valid() && rep.Valid() && Apart(find) && Apart(rep)
      requires len > 0 && rep.len > find.len > 0
      requires WalkFits(Contents(), find.Contents(), rep.Contents(), capacity, granted)
      modifies this, buffer
      ensures Valid()
      ensures Contents() == Grown(old(Contents()), find.Contents(), rep.Contents(), old(capacity), granted)
    {
      hide ReplaceAll, OccursAt, WalkBack, LastAtMost;
      var size := GrownSize(find, rep);
      if size == len { return; }
      if size > capacity {
        var ok := ChangeBuffer(size, granted);
        if !ok { return; }
      }
      assert buffer[..len] == old(Contents());
      ReplaceFromRight(find, rep);
    }

    /** replace(const String&, const String&), with the choice of the branch. */
    method Replace(find: ArduinoString, rep: ArduinoString, granted: bool)
      requires Valid() && find.Valid() && rep.Valid() && Apart(find) && Apart(rep)
      requires rep.len > find.len > 0 ==>
                 WalkFits(Contents(), find.Contents(), rep.Contents(), capacity, granted)
      modifies this, buffer
      ensures Valid()
      ensures find.len == 0 ==> Contents() == old(Contents())
      ensures 0 < find.len && rep.len <= find.len ==>
                Contents() == ReplaceAll(old(Contents()), find.Contents(), rep.Contents())
      ensures rep.len > find.len > 0 ==>
                Contents() == Grown(old(Contents()), find.Contents(), rep.Contents(), old(capacity), granted)
    {
      hide OccursAt;
      if len == 0 || find.len == 0 {
        assert len == 0 ==> Contents() == [];
        return;
      }
      if rep.len == find.len {
        ReplaceSame(find, rep);
      } else if rep.len < find.len {
        ReplaceShrinking(find, rep);
      } else {
        ReplaceGrowing(find, rep, granted);
      }
    }
  }

  /** The size that the growing branch counts, in 16 bits. */
  ghost function Counted(s: string, find: string, rep: string): nat
    requires |find| > 0
  {
    Wrapped(|ReplaceAll(s, find, rep)|)
  }

  /** The walk is made: the size has changed and there is a buffer for it. */
  ghost predicate Walks(s: string, find: string, rep: string, capacity: nat, granted: bool)
    requires |find| > 0
  {
    var size := Counted(s, find, rep);
    size != |s| && (size <= capacity || (granted && BlockSize(size) <= INT_MAX))
  }

  /** One round of the walk, and room for it. */
  lemma WalkRound(t: string, f: string, r: string, bound: nat, i: nat)
    requires |f| <= |r| && i == LastAtMost(t, f, bound)
    ensures i + |f| <= |t|
    ensures var u := t[..i] + r + t[i + |f|..];
      WalkBack(t, f, r, bound) == WalkBack(u, f, r, i - 1) && |u| == |t| + |r| - |f| <= |WalkBack(t, f, r, bound)|
  {
    hide WalkBack, LastAtMost, OccursAt;
    WalkBackStep(t, f, r, bound);
    MatchFits(t, f, i);
    WalkBackGrows(t[..i] + r + t[i + |f|..], f, r, i - 1);
  }

  /** The buffer that the sizing pass settles for is long enough for the walk, if it is made. */
  ghost predicate WalkFits(s: string, find: string, rep: string, capacity: nat, granted: bool)
    requires |find| > 0
  {
    var size := Counted(s, find, rep);
    Walks(s, find, rep, capacity, granted) ==>
      |WalkBack(s, find, rep, |s| - 1)| < if size > capacity then BlockSize(size) else capacity + 1
  }

  /** What the growing branch leaves, allocation failure included. */
  ghost function Grown(s: string, find: string, rep: string, capacity: nat, granted: bool): string
    requires |find| > 0
  {
    if Walks(s, find, rep, capacity, granted) then WalkBack(s, find, rep, |s| - 1) else s
  }

  /** For separable arguments a walk that is made has room exactly when its result is shorter than
      65535 characters or fits the old buffer, and up to 65535 what is left is the replacement. */
  lemma SeparableGrown(s: string, find: string, rep: string, capacity: nat, granted: bool)
    requires 0 < |find| < |rep| && Separable(find, rep)
    ensures var n := |ReplaceAll(s, find, rep)|;
      && (WalkFits(s, find, rep, capacity, granted) <==>
          (Walks(s, find, rep, capacity, granted) ==> n < UINT_MAX || n <= capacity))
      && (n <= UINT_MAX && (n <= capacity || (granted && n < INT_MAX)) ==>
          Grown(s, find, rep, capacity, granted) == ReplaceAll(s, find, rep))
  {
    hide ReplaceAll, WalkBack, Separable, Wrapped, BlockSize;
    var n := |ReplaceAll(s, find, rep)|;
    SeparableGrowsCorrectly(s, find, rep);
    SmallSizes(n);
    SmallSizes(Counted(s, find, rep));
    if n == |s| { SameSize(s, find, rep); }
  }

  lemma SmallSizes(n: nat)
    ensures n <= UINT_MAX ==> Wrapped(n) == n && BlockSize(n) == if n == UINT_MAX then 0 else n + 1
    ensures Wrapped(n) <= UINT_MAX && Wrapped(n) <= n
  {
  }

  function Repeat(c: char, n: nat): (s: string)
    ensures |s| == n && forall i | 0 <= i < n :: s[i] == c
  {
    seq(n, _ => c)
  }

  lemma {:induction false} ReplaceEach(n: nat, m: nat, rep: string)
    ensures |ReplaceAll(Repeat('a', n) + Repeat('b', m), "a", rep)| == n * |rep| + m
  {
    hide ReplaceAll, OccursAt;
    var s := Repeat('a', n) + Repeat('b', m);
    if n == 0 {
      forall i | 0 <= i < |s| ensures !OccursAt(s, "a", i) { NotThere(s, i); }
      ReplaceAllNone(s, "a", rep);
    } else {
      ReplaceHead(s, rep);
      assert s[1..] == Repeat('a', n - 1) + Repeat('b', m);
      ReplaceEach(n - 1, m, rep);
      assert n * |rep| == (n - 1) * |rep| + |rep|;
    }
  }

  lemma NotThere(s: string, i: nat)
    requires i < |s| && s[i] == 'b'
    ensures !OccursAt(s, "a", i)
  {
    assert s[i + 0] != "a"[0];
  }

  lemma ReplaceHead(s: string, rep: string)
    requires s != [] && s[0] == 'a'
    ensures ReplaceAll(s, "a", rep) == rep + ReplaceAll(s[1..], "a", rep)
  {
    assert OccursAt(s, "a", 0);
  }

  /** A text of 120 characters with a result of 65535: memory is promised and not there. */
  lemma NoRoomAtLimit()
    ensures var s, rep := Repeat('a', 105) + Repeat('b', 15), Repeat('c', 624);
      && Separable("a", rep) && |ReplaceAll(s, "a", rep)| == UINT_MAX
      && Walks(s, "a", rep, 120, true) && !WalkFits(s, "a", rep, 120, true)
  {
    hide ReplaceAll, Repeat;
    var s, rep := Repeat('a', 105) + Repeat('b', 15), Repeat('c', 624);
    ReplaceEach(105, 15, rep);
    SeparableGrown(s, "a", rep, 120, true);
  }

  lemma SameSize(s: string, find: string, rep: string)
    requires 0 < |find| < |rep| && Separable(find, rep) && |ReplaceAll(s, find, rep)| == |s|
    ensures ReplaceAll(s, find, rep) == s
  {
    hide ReplaceAll, Separable;
    SeparableGrowsCorrectly(s, find, rep);
    WalkBackGrows(s, find, rep, |s| - 1);
    WalkBackStep(s, find, rep, |s| - 1);
  }

  /** Overwriting a match in the unread part of `b` extends the edited part. */
  lemma Overwritten(b: string, b': string, s: string, r: string, from: nat, at: nat)
    requires |b| == |b'| == |s| && from <= at && at + |r| <= |b|
    requires b[from..] == s[from..]
    requires forall i | at <= i < at + |r| :: b'[i] == r[i - at]
    requires forall i | 0 <= i < |b| && !(at <= i < at + |r|) :: b'[i] == b[i]
    ensures b'[..at + |r|] == b[..from] + s[from..at] + r
    ensures b'[at + |r|..] == s[at + |r|..]
  {
    forall i | from <= i < |b| ensures b[i] == s[i] {
      assert b[from..][i - from] == s[from..][i - from];
    }
  }

  /** Moving the unmatched part down and writing the replacement behind it. */
  lemma Compacted(b: string, m: string, b': string, s: string, r: string,
                  to: nat, from: nat, at: nat, n: nat)
    requires |b| == |m| == |b'| == |s| && to <= from <= at && at + n <= |s| && |r| <= n
    requires b[from..] == s[from..]
    requires forall i | to <= i < to + (at - from) :: m[i] == b[i - to + from]
    requires forall i | 0 <= i < |b| && !(to <= i < to + (at - from)) :: m[i] == b[i]
    requires var w := to + (at - from);
             && (forall i | w <= i < w + |r| :: b'[i] == r[i - w])
             && (forall i | 0 <= i < |b| && !(w <= i < w + |r|) :: b'[i] == m[i])
    ensures b'[..to + (at - from) + |r|] == b[..to] + s[from..at] + r
    ensures b'[at + n..] == s[at + n..]
  {
    forall i | from <= i < |b| ensures b[i] == s[i] {
      assert b[from..][i - from] == s[from..][i - from];
    }
  }

  /** The final strcpy moves the unread tail behind the edited part. */
  lemma Closed(b: string, b': string, s: string, to: nat, from: nat)
    requires |b| == |s| && to <= from <= |s| && |b'| == to + (|s| - from)
    requires b[from..] == s[from..]
    requires forall i | to <= i < |b'| :: b'[i] == b[i - to + from]
    requires forall i | 0 <= i < to :: b'[i] == b[i]
    ensures b' == b[..to] + s[from..]
  {
    forall i | from <= i < |b| ensures b[i] == s[i] {
      assert b[from..][i - from] == s[from..][i - from];
    }
  }

  lemma Appended(t: string, u: string, b: string)
    requires NoNul(t) && NoNul(u) && |b| == |t| + |u|
    requires forall i | 0 <= i < |t| :: b[i] == t[i]
    requires forall i | |t| <= i < |b| :: b[i] == u[i - |t|]
    ensures b == t + u && NoNul(b)
  {
  }

  lemma WrittenNoNul(b: string, b': string, r: string, at: nat)
    requires |b| == |b'| && at + |r| <= |b| && NoNul(b) && NoNul(r)
    requires forall i | at <= i < at + |r| :: b'[i] == r[i - at]
    requires forall i | 0 <= i < |b| && !(at <= i < at + |r|) :: b'[i] == b[i]
    ensures NoNul(b')
  {
  }

  lemma Restored(was: string, now: string, len: nat, left: nat, right: nat)
    requires was == now && left <= right <= len <= |was|
    ensures was[..len] == now[..len] && was[left..right] == now[..len][left..right]
  {
  }

  /** What `Keep` moved to the front. */
  lemma Kept(b: string, b': string, t: string, begin: nat, end: nat)
    requires begin <= end <= |b| && t == b[begin..end] && |b'| == end - begin
    requires forall i | 0 <= i < |b'| :: b'[i] == b[i + begin]
    requires forall i | begin <= i < end :: b[i] != '\0'
    ensures b' == t && NoNul(b')
  {
  }

  /** `m` is `t` with its characters from `at` on moved up by `diff`. */
  ghost predicate Gap(t: string, m: string, at: nat, diff: nat) {
    && |m| == |t| + diff
    && (forall i | 0 <= i < at && i < |t| :: m[i] == t[i])
    && forall i | at + diff <= i < |m| :: m[i] == t[i - diff]
  }

  ghost predicate Filled(m: string, b: string, r: string, at: nat) {
    && |b| == |m|
    && (forall i | at <= i < at + |r| && i < |b| :: b[i] == r[i - at])
    && forall i | 0 <= i < |b| && !(at <= i < at + |r|) :: b[i] == m[i]
  }

  /** Opening a gap and filling it replaces the match at `at`. */
  lemma Spliced(t: string, m: string, b: string, r: string, at: nat, n: nat)
    requires at + n <= |t| && n <= |r| && |m| == |b| && Gap(t, m, at + n, |r| - n)
    requires Filled(m, b, r, at)
    ensures b == t[..at] + r + t[at + n..]
  {
  }

  lemma SplicedNoNul(t: string, r: string, at: nat, n: nat)
    requires at + n <= |t| && NoNul(t) && NoNul(r)
    ensures NoNul(t[..at] + r + t[at + n..])
  {
  }
}
