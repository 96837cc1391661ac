/** Printing and reading numbers, hardware/arduino/cores/arduino/Print.cpp:88-102,127-132,206-223
    and Stream.cpp:55-65,138-164. `long` is 32 bits wide and wraps, `char` is signed. */
module NumberTextSpec {
  type Bytes = seq<int>

  const LONG := 0x1_0000_0000
  const MINUS := 45
  const CR := 13
  const LF := 10
  const NO_SKIP_CHAR := 1

  /** The value a 32-bit `long` holds. */
  function Wrap(n: int): (w: int)
    ensures -0x8000_0000 <= w < 0x8000_0000
    ensures -0x8000_0000 <= n < 0x8000_0000 ==> w == n
  {
    (n + 0x8000_0000) % LONG - 0x8000_0000
  }

  // ---------------------------------------------------------------- digits

  /** The base expansion, most significant digit first. */
  function Digits(n: nat, base: nat): (ds: seq<nat>)
    requires base >= 2
    ensures ds != []
    ensures forall i | 0 <= i < |ds| :: ds[i] < base
  {
    if n < base then [n]
    else
      Shrinks(n, base);
      Digits(n / base, base) + [n % base]
  }

  lemma Shrinks(n: nat, base: nat)
    requires base >= 2 && n >= base
    ensures 0 < n / base < n && n / base * 2 <= n && n % base < base
    ensures n / base * base + n % base == n
  {
    var q, r := n / base, n % base;
    assert n == base * q + r && 0 <= r < base;
    Positive(base, q, r, n);
    Half(base, q, r, n);
  }

  lemma Half(base: nat, q: nat, r: nat, n: nat)
    requires n == base * q + r && base >= 2
    ensures q * 2 <= n && q * base + r == n
  {
    assert base * q - q * 2 == q * (base - 2);
  }

  lemma Positive(base: nat, q: nat, r: nat, n: nat)
    requires n == base * q + r && r < base <= n
    ensures q > 0
  {
    assert q == 0 ==> base * q == 0;
  }

  function Value(ds: seq<nat>, base: nat): nat {
    if ds == [] then 0 else Value(ds[..|ds| - 1], base) * base + ds[|ds| - 1]
  }

  /** The expansion denotes the number, and only zero starts with a zero. */
  lemma {:induction false} DigitsDenote(n: nat, base: nat)
    requires base >= 2
    ensures Value(Digits(n, base), base) == n
    ensures Digits(n, base)[0] == 0 <==> n == 0
  {
    var ds := Digits(n, base);
    if n < base {
      assert ds[..0] == [];
    } else {
      Shrinks(n, base);
      DigitsDenote(n / base, base);
      ValueSnoc(Digits(n / base, base), n % base, base);
    }
  }

  lemma ValueSnoc(ds: seq<nat>, d: nat, base: nat)
    ensures Value(ds + [d], base) == Value(ds, base) * base + d
  {
    assert (ds + [d])[..|ds + [d]| - 1] == ds;
  }

  function Pow2(k: nat): nat { if k == 0 then 1 else 2 * Pow2(k - 1) }

  /** A number of `k` bits has at most `k` digits in any base. */
  lemma {:induction false} DigitsFew(n: nat, base: nat, k: nat)
    requires base >= 2 && 0 < k && n < Pow2(k)
    ensures |Digits(n, base)| <= k
  {
    if n >= base {
      Shrinks(n, base);
      DigitsFew(n / base, base, k - 1);
    }
  }

  /** The character of a digit; one of 128 or more is a negative `char`. */
  function DigitChar(d: nat): int
    requires d < 256
  {
    var c := if d < 128 then d else d - 256;
    if c < 10 then (c + 48) % 256 else (c + 55) % 256
  }

  /** Different digits have different characters exactly up to base 128. */
  lemma DigitCharsDistinct(base: nat)
    requires base <= 256
    ensures (forall d: nat, e: nat | d < e < base :: DigitChar(d) != DigitChar(e)) <==> base <= 128
  {
    if base > 128 { assert DigitChar(121) == DigitChar(128); }
  }

  function Chars(ds: seq<nat>): (s: Bytes)
    requires forall i | 0 <= i < |ds| :: ds[i] < 256
    ensures |s| == |ds| && forall i | 0 <= i < |s| :: s[i] == DigitChar(ds[i])
  {
    seq(|ds|, i requires 0 <= i < |ds| => DigitChar(ds[i]))
  }

  /** `write(str)` stops at the first NUL. */
  function ToNul(s: Bytes): Bytes {
    if s == [] || s[0] == 0 then [] else [s[0]] + ToNul(s[1..])
  }

  lemma {:induction false} NoNul(s: Bytes)
    requires forall i | 0 <= i < |s| :: s[i] != 0
    ensures ToNul(s) == s
  {
    if s != [] { NoNul(s[1..]); }
  }

  /** `base < 2` prints in base ten. */
  function Base(base: nat): nat { if base < 2 then 10 else base }

  function Number(n: nat, base: nat): Bytes
    requires base < 256
  {
    ToNul(Chars(Digits(n, Base(base))))
  }

  lemma NumberKept(n: nat, base: nat)
    requires base <= 208
    ensures Number(n, base) == Chars(Digits(n, Base(base)))
  {
    hide Digits, DigitChar;
    var ds := Digits(n, Base(base));
    forall i | 0 <= i < |ds| ensures DigitChar(ds[i]) != 0 { NotNul(ds[i]); }
    NoNul(Chars(ds));
  }

  lemma NotNul(d: nat)
    requires d < 208
    ensures DigitChar(d) != 0
  {
  }

  /** Every number is printed whole exactly in the bases up to 208: the digit 208 has the
      character NUL. */
  lemma NumberWhole(base: nat)
    requires base < 256
    ensures (forall n: nat :: Number(n, base) == Chars(Digits(n, Base(base)))) <==> base <= 208
  {
    if base <= 208 {
      forall n: nat ensures Number(n, base) == Chars(Digits(n, Base(base))) { NumberKept(n, base); }
    } else {
      assert Digits(208, base) == [208] && DigitChar(208) == 0;
      assert |Number(208, base)| == 0;
    }
  }

  /** `n`, or `-n` with its wrap-around, as an unsigned 32-bit number. */
  function Magnitude(n: int): (u: nat)
    requires -0x8000_0000 <= n < 0x8000_0000
  {
    if n < 0 then Wrap(-n) % LONG else n
  }

  /** `print(long, int)`: a sign in base ten only; base 0 writes the low byte. */
  function Printed(n: int, base: int): Bytes
    requires -0x8000_0000 <= n < 0x8000_0000
  {
    if base == 0 then [n % 256]
    else if base == 10 then if n < 0 then [MINUS] + Number(Magnitude(n), 10) else Number(n, 10)
    else Number(n % LONG, base % 256)
  }

  /** `text` is the number `n` in that base: digits '0' to '9', then 'A' and on. Digits of 128 and
      more are negative as `char` and count from '0' again, modulo 256. */
  ghost predicate Denotes(text: Bytes, base: nat, n: nat) {
    exists ds: seq<nat> :: |ds| == |text| > 0 && Value(ds, base) == n && (ds[0] == 0 ==> n == 0) && forall i | 0 <= i < |ds| ::
      && ds[i] < base
      && text[i] == if ds[i] < 10 then '0' as int + ds[i]
                    else if ds[i] < 128 then 'A' as int + ds[i] - 10
                    else ('0' as int + ds[i]) % 256
  }

  /** Every base up to 208 but ten prints all 32 bits without a sign, base 1 as ten does. */
  lemma PrintedDenotes(n: int, base: nat)
    requires -0x8000_0000 <= n < 0x8000_0000 && 1 <= base <= 208 && base != 10
    ensures Denotes(Printed(n, base), if base == 1 then 10 else base, n % LONG)
  {
    hide Digits, Chars, Denotes, Value, Number;
    var b := if base == 1 then 10 else base;
    NumberKept(n % LONG, base);
    DigitsDenote(n % LONG, b);
    CharsDenote(Digits(n % LONG, b), b, n % LONG);
    PrintedOther(n, base);
  }

  lemma PrintedOther(n: int, base: nat)
    requires -0x8000_0000 <= n < 0x8000_0000 && 1 <= base <= 208 && base != 10
    ensures Printed(n, base) == Number(n % LONG, base)
  {
    assert base % 256 == base;
  }

  lemma CharsDenote(ds: seq<nat>, base: nat, n: nat)
    requires ds != [] && base <= 208 && (forall i | 0 <= i < |ds| :: ds[i] < base)
    requires Value(ds, base) == n && (ds[0] == 0 ==> n == 0)
    ensures Denotes(Chars(ds), base, n)
  {
    hide DigitChar, Value;
    forall i | 0 <= i < |ds| ensures Chars(ds)[i] == if ds[i] < 10 then '0' as int + ds[i]
                                                     else if ds[i] < 128 then 'A' as int + ds[i] - 10
                                                     else ('0' as int + ds[i]) % 256 {
      DigitCharIs(ds[i]);
    }
  }

  /** A signed number in base ten, and a byte. */
  lemma PrintedTen(n: int)
    requires -0x8000_0000 <= n < 0x8000_0000
    ensures n >= 0 ==> Denotes(Printed(n, 10), 10, n)
    ensures n < 0 ==> var s := Printed(n, 10); s != [] && s[0] == '-' as int && Denotes(s[1..], 10, 0 - n)
    ensures Printed(n, 0) == [n % 256]
  {
    hide Digits, Chars, Denotes, Magnitude;
    var u := Magnitude(n);
    NumberKept(u, 10);
    DigitsDenote(u, 10);
    CharsDenote(Digits(u, 10), 10, u);
    MagnitudeIs(n);
    if n < 0 { assert Printed(n, 10)[1..] == Chars(Digits(u, 10)); }
  }

  lemma MagnitudeIs(n: int)
    requires -0x8000_0000 <= n < 0x8000_0000
    ensures Magnitude(n) == if n < 0 then 0 - n else n
  {
  }

  lemma DigitCharIs(d: nat)
    requires d < 208
    ensures DigitChar(d) == if d < 10 then '0' as int + d else if d < 128 then 'A' as int + d - 10 else ('0' as int + d) % 256
  {
  }

  // ---------------------------------------------------------------- reading

  predicate IsDigit(c: int) { 48 <= c <= 57 }

  /** `peekNextDigit`: what is left after the bytes before the first digit or sign. Nothing left
      to read and a negative value both stand for a timeout. */
  function Skip(s: Bytes): (r: Bytes)
    ensures |r| <= |s| && (r != [] ==> r[0] == MINUS || IsDigit(r[0]) || r[0] < 0)
  {
    if s == [] || s[0] < 0 || s[0] == MINUS || IsDigit(s[0]) then s else Skip(s[1..])
  }

  datatype Parsed = Parsed(value: int, rest: Bytes)

  function Negated(value: int, negative: bool): int { if negative then Wrap(-value) else value }

  /** The loop of `parseInt` from the byte it has peeked on. */
  function Loop(s: Bytes, skip: int, negative: bool, value: int): (p: Parsed)
    requires s != []
    ensures |p.rest| < |s|
    decreases |s|
  {
    var c, t := s[0], s[1..];
    var neg := negative || (c != skip && c == MINUS);
    var v := if c != skip && IsDigit(c) then Wrap(value * 10 + c - 48) else value;
    if t != [] && (IsDigit(t[0]) || t[0] == skip) then Loop(t, skip, neg, v) else Parsed(Negated(v, neg), t)
  }

  function ParseInt(s: Bytes, skip: int): (p: Parsed)
    ensures |p.rest| <= |s|
  {
    var t := Skip(s);
    if t == [] || t[0] < 0 then Parsed(0, t) else Loop(t, skip, false, 0)
  }

  // ---------------------------------------------------------------- round trip

  /** The number that reading digits makes of a value. */
  function Accumulate(value: int, ds: seq<nat>): int
    decreases |ds|
  {
    if ds == [] then value else Accumulate(value * 10 + ds[0], ds[1..])
  }

  lemma WrapSum(x: int, d: int)
    ensures Wrap(Wrap(x) * 10 + d) == Wrap(x * 10 + d)
  {
    var k := (x + 0x8000_0000) / LONG;
    assert x == Wrap(x) + LONG * k;
    WrapPeriod(Wrap(x) * 10 + d, 10 * k);
  }

  lemma WrapPeriod(x: int, k: int)
    ensures Wrap(x + LONG * k) == Wrap(x)
  {
  }

  lemma {:induction false} AccumulateSnoc(value: int, ds: seq<nat>, d: nat)
    ensures Accumulate(value, ds + [d]) == Accumulate(value, ds) * 10 + d
    decreases |ds|
  {
    if ds == [] {
      assert [d][1..] == [];
    } else {
      AccumulateSnoc(value * 10 + ds[0], ds[1..], d);
      assert (ds + [d])[1..] == ds[1..] + [d];
    }
  }

  lemma {:induction false} AccumulateDigits(n: nat)
    ensures Accumulate(0, Digits(n, 10)) == n
  {
    if n < 10 {
      assert [n][1..] == [];
    } else {
      AccumulateDigits(n / 10);
      AccumulateSnoc(0, Digits(n / 10, 10), n % 10);
    }
  }

  /** What can stand in a number: the digits, and the character to skip. */
  predicate InNumber(c: int, skip: int) { '0' as int <= c <= '9' as int || c == skip }

  predicate Numeric(text: Bytes, skip: int) {
    forall i | 0 <= i < |text| :: InNumber(text[i], skip)
  }

  /** The digits of a text, without the characters that are skipped. */
  function DigitsOf(text: Bytes, skip: int): (ds: seq<nat>)
    requires Numeric(text, skip)
    ensures forall i | 0 <= i < |ds| :: ds[i] < 10
  {
    if text == [] then []
    else (if text[0] == skip then [] else [text[0] - '0' as int]) + DigitsOf(text[1..], skip)
  }

  /** Reading on over digits up to a byte that ends the number, or the end of the stream. */
  lemma {:induction false} LoopText(text: Bytes, tail: Bytes, skip: int, negative: bool, value: int)
    requires text != [] && Numeric(text, skip) && (tail == [] || !InNumber(tail[0], skip))
    ensures Loop(text + tail, skip, negative, Wrap(value))
         == Parsed(Negated(Wrap(Accumulate(value, DigitsOf(text, skip))), negative), tail)
    decreases |text|
  {
    hide Wrap, Negated, Loop, Accumulate, DigitsOf;
    var s, c, more := text + tail, text[0], text[1..];
    assert s[0] == c && s[1..] == more + tail;
    var next := if c == skip then value else value * 10 + (c - '0' as int);
    LoopByte(s, skip, negative, value);
    DigitsFirst(text, skip, value);
    if more == [] {
      assert s[1..] == tail;
      NoDigits(skip, next);
    } else {
      assert InNumber(more[0], skip);
      LoopText(more, tail, skip, negative, next);
    }
  }

  /** One round of the loop over a digit or a character to skip. */
  lemma LoopByte(s: Bytes, skip: int, negative: bool, value: int)
    requires s != [] && InNumber(s[0], skip)
    ensures var c, t := s[0], s[1..];
      var next := if c == skip then value else value * 10 + (c - '0' as int);
      Loop(s, skip, negative, Wrap(value)) ==
        if t != [] && InNumber(t[0], skip) then Loop(t, skip, negative, Wrap(next))
        else Parsed(Negated(Wrap(next), negative), t)
  {
    hide Wrap, Negated;
    WrapSum(value, s[0] - '0' as int);
  }

  lemma DigitsFirst(text: Bytes, skip: int, value: int)
    requires text != [] && Numeric(text, skip)
    ensures var next := if text[0] == skip then value else value * 10 + (text[0] - '0' as int);
      Accumulate(value, DigitsOf(text, skip)) == Accumulate(next, DigitsOf(text[1..], skip))
  {
    if text[0] == skip {
      assert [] + DigitsOf(text[1..], skip) == DigitsOf(text[1..], skip);
    } else {
      AccumulateJoin(value, [text[0] - '0' as int], DigitsOf(text[1..], skip));
      AccumulateOne(value, text[0] - '0' as int);
    }
  }

  lemma AccumulateOne(value: int, d: nat)
    ensures Accumulate(value, [d]) == value * 10 + d
  {
    assert [d][1..] == [];
  }

  lemma NoDigits(skip: int, value: int)
    ensures Accumulate(value, DigitsOf([], skip)) == value
  {
  }

  lemma {:induction false} AccumulateJoin(value: int, a: seq<nat>, b: seq<nat>)
    ensures Accumulate(value, a + b) == Accumulate(Accumulate(value, a), b)
    decreases |a|
  {
    if a == [] {
      assert a + b == b;
    } else {
      AccumulateJoin(value * 10 + a[0], a[1..], b);
      assert (a + b)[1..] == a[1..] + b;
    }
  }

  lemma {:induction false} AccumulateValue(ds: seq<nat>)
    ensures Accumulate(0, ds) == Value(ds, 10)
    decreases |ds|
  {
    if ds != [] {
      var n := |ds| - 1;
      AccumulateValue(ds[..n]);
      AccumulateSnoc(0, ds[..n], ds[n]);
      assert ds == ds[..n] + [ds[n]];
    }
  }

  /** Bytes that are read over in front of a number. */
  predicate Junk(c: int) { c >= 0 && c != '-' as int && !('0' as int <= c <= '9' as int) }

  lemma {:induction false} SkipJunk(junk: Bytes, s: Bytes)
    requires forall i | 0 <= i < |junk| :: Junk(junk[i])
    ensures Skip(junk + s) == Skip(s)
    decreases |junk|
  {
    if junk == [] {
      assert junk + s == s;
    } else {
      assert Junk(junk[0]) && (junk + s)[1..] == junk[1..] + s;
      SkipJunk(junk[1..], s);
    }
  }

  /** `parseInt(skip)`: over anything to the first digit or sign, then the value of the digits, a
      `long` that wraps, up to the first byte that is neither a digit nor skipped. */
  lemma ParseText(junk: Bytes, minus: bool, text: Bytes, tail: Bytes, skip: int)
    requires (forall i | 0 <= i < |junk| :: Junk(junk[i])) && skip != '-' as int && Numeric(text, skip)
    requires text != [] && '0' as int <= text[0] <= '9' as int && text[0] != skip
    requires tail == [] || !InNumber(tail[0], skip)
    ensures var v := Value(DigitsOf(text, skip), 10);
      ParseInt(junk + ((if minus then ['-' as int] else []) + (text + tail)), skip)
        == Parsed(if minus then Wrap(0 - Wrap(v)) else Wrap(v), tail)
  {
    hide Wrap, Loop, Skip, DigitsOf, Accumulate;
    var s := text + tail;
    var signed := (if minus then ['-' as int] else []) + s;
    SkipJunk(junk, signed);
    LoopText(text, tail, skip, minus, 0);
    WrapZero();
    AccumulateValue(DigitsOf(text, skip));
    SkipEndsAt(signed);
    assert s[0] == text[0];
    if minus { LoopSign(s, skip); } else { assert signed == s; }
  }

  lemma SkipEndsAt(s: Bytes)
    requires s != [] && (s[0] == '-' as int || '0' as int <= s[0] <= '9' as int)
    ensures Skip(s) == s
  {
  }

  lemma LoopSign(s: Bytes, skip: int)
    requires s != [] && '0' as int <= s[0] <= '9' as int && skip != '-' as int
    ensures Loop(['-' as int] + s, skip, false, 0) == Loop(s, skip, true, 0)
  {
    assert (['-' as int] + s)[1..] == s;
  }

  /** `parseInt()` skips the byte 1, which numbers do not have. */
  lemma DefaultSkip(junk: Bytes, minus: bool, text: Bytes, tail: Bytes)
    requires (forall i | 0 <= i < |junk| :: Junk(junk[i])) && Numeric(text, 1)
    requires text != [] && '0' as int <= text[0] <= '9' as int && (tail == [] || !InNumber(tail[0], 1))
    ensures var v := Value(DigitsOf(text, 1), 10);
      ParseInt(junk + ((if minus then ['-' as int] else []) + (text + tail)), NO_SKIP_CHAR)
        == Parsed(if minus then Wrap(0 - Wrap(v)) else Wrap(v), tail)
  {
    ParseText(junk, minus, text, tail, 1);
  }

  lemma {:induction false} DigitsOfChars(ds: seq<nat>)
    requires forall i | 0 <= i < |ds| :: ds[i] < 10
    ensures Numeric(Chars(ds), NO_SKIP_CHAR) && DigitsOf(Chars(ds), NO_SKIP_CHAR) == ds
  {
    if ds != [] {
      DigitsOfChars(ds[1..]);
      assert Chars(ds)[1..] == Chars(ds[1..]);
      assert [Chars(ds)[0] - '0' as int] + ds[1..] == ds;
    }
  }

  /** Reading on over printed digits up to the end of the line. */
  lemma LoopDigits(ds: seq<nat>, tail: Bytes, negative: bool, value: int)
    requires ds != [] && (forall i | 0 <= i < |ds| :: ds[i] < 10) && tail != [] && tail[0] == CR
    ensures Loop(Chars(ds) + tail, NO_SKIP_CHAR, negative, Wrap(value))
         == Parsed(Negated(Wrap(Accumulate(value, ds)), negative), tail)
  {
    hide Wrap, Negated, Loop;
    DigitsOfChars(ds);
    LoopText(Chars(ds), tail, NO_SKIP_CHAR, negative, value);
  }

  function Line(n: int): Bytes
    requires -0x8000_0000 <= n < 0x8000_0000
  {
    Printed(n, 10) + [CR, LF]
  }

  function Lines(ns: seq<int>): Bytes
    requires forall i | 0 <= i < |ns| :: -0x8000_0000 <= ns[i] < 0x8000_0000
  {
    if ns == [] then [] else Line(ns[0]) + Lines(ns[1..])
  }

  /** What `parseInt` gives when it is called `n` times. */
  function ParseMany(s: Bytes, n: nat): seq<int>
    decreases n
  {
    if n == 0 then [] else
      var p := ParseInt(s, NO_SKIP_CHAR);
      [p.value] + ParseMany(p.rest, n - 1)
  }

  lemma SkipEnds(s: Bytes)
    ensures Skip([CR, LF] + s) == Skip(s) && Skip([LF] + s) == Skip(s)
  {
    assert ([CR, LF] + s)[1..] == [LF] + s && ([LF] + s)[1..] == s;
  }

  lemma LineIs(n: int, tail: Bytes)
    requires -0x8000_0000 <= n < 0x8000_0000
    ensures var s := Chars(Digits(Magnitude(n), 10)) + ([CR, LF] + tail);
      Line(n) + tail == (if n < 0 then [MINUS] + s else s) && IsDigit(s[0])
  {
    hide Digits, Wrap;
    NumberKept(Magnitude(n), 10);
    var t := Chars(Digits(Magnitude(n), 10));
    if n < 0 {
      assert [MINUS] + t + [CR, LF] + tail == [MINUS] + (t + ([CR, LF] + tail));
    } else {
      assert t + [CR, LF] + tail == t + ([CR, LF] + tail);
    }
  }

  lemma ParseLine(n: int, tail: Bytes)
    requires -0x8000_0000 <= n < 0x8000_0000
    ensures ParseInt(Line(n) + tail, NO_SKIP_CHAR) == Parsed(n, [CR, LF] + tail)
  {
    hide Digits, Loop, Skip, Negated, Wrap, Chars, Accumulate, ParseInt, Line, Magnitude, IsDigit;
    var u, end := Magnitude(n), [CR, LF] + tail;
    var s := Chars(Digits(u, 10)) + end;
    LineIs(n, tail);
    AccumulateDigits(u);
    LoopDigits(Digits(u, 10), end, n < 0, 0);
    WrapZero();
    SignRestored(n);
    if n < 0 { SkipSign(s); } else { SkipDigit(s); }
  }

  lemma WrapZero()
    ensures Wrap(0) == 0
  {
  }

  lemma SkipDigit(s: Bytes)
    requires s != [] && IsDigit(s[0])
    ensures ParseInt(s, NO_SKIP_CHAR) == Loop(s, NO_SKIP_CHAR, false, 0)
  {
  }

  lemma SkipSign(s: Bytes)
    requires s != [] && IsDigit(s[0])
    ensures ParseInt([MINUS] + s, NO_SKIP_CHAR) == Loop(s, NO_SKIP_CHAR, true, 0)
  {
    assert ([MINUS] + s)[1..] == s;
  }

  /** Also for the least `long`, whose negation wraps to itself. */
  lemma SignRestored(n: int)
    requires -0x8000_0000 <= n < 0x8000_0000
    ensures Negated(Wrap(Magnitude(n)), n < 0) == n
  {
  }

  /** Skipping works on the whole input, so a line end before a number does not matter. */
  lemma ParseSkips(s: Bytes, n: nat)
    ensures ParseMany([CR, LF] + s, n) == ParseMany(s, n)
  {
    SkipEnds(s);
  }

  /** Any printed lines of numbers are read back in order. */
  lemma {:induction false} LinesRoundTrip(ns: seq<int>)
    requires forall i | 0 <= i < |ns| :: -0x8000_0000 <= ns[i] < 0x8000_0000
    ensures ParseMany(Lines(ns), |ns|) == ns
  {
    if ns != [] {
      hide Line, ParseInt, ParseMany;
      LinesRoundTrip(ns[1..]);
      var tail := Lines(ns[1..]);
      ParseLine(ns[0], tail);
      ParseSkips(tail, |ns| - 1);
      ParseFirst(Line(ns[0]) + tail, |ns|);
    } else {
      ParseNone(Lines(ns));
    }
  }

  lemma ParseFirst(s: Bytes, n: nat)
    requires n > 0
    ensures var p := ParseInt(s, NO_SKIP_CHAR); ParseMany(s, n) == [p.value] + ParseMany(p.rest, n - 1)
  {
  }

  lemma ParseNone(s: Bytes)
    ensures ParseMany(s, 0) == []
  {
  }
}

module NumberText {
  import opened NumberTextSpec

  lemma LongBits(n: nat)
    requires n < LONG
    ensures n < Pow2(32)
  {
    assert Pow2(8) == 0x100;
    assert Pow2(16) == 0x1_0000;
    assert Pow2(24) == 0x100_0000;
  }

  ghost predicate Below256(ds: seq<nat>) {
    forall i | 0 <= i < |ds| :: ds[i] < 256
  }

  /** The digits still to come before `ds`, and the places left for them. */
  ghost predicate Rest(n: nat, m: nat, base: nat, ds: seq<nat>, places: nat, more: bool)
    requires base >= 2
  {
    if more then 0 < places && m < Pow2(places) && Digits(n, base) == Digits(m, base) + ds else Digits(n, base) == ds
  }

  lemma StartsEmpty(n: nat, base: nat)
    requires base >= 2 && n < LONG
    ensures Rest(n, n, base, [], 32, true)
  {
    hide Digits;
    LongBits(n);
    assert Digits(n, base) == Digits(n, base) + [];
  }

  lemma RestDone(n: nat, m: nat, base: nat, ds: seq<nat>, places: nat)
    requires base >= 2 && Rest(n, m, base, ds, places, false)
    ensures ds == Digits(n, base)
  {
  }

  /** The number without its last digit, and that digit. */
  function Shortened(m: nat, base: nat): nat
    requires base > 0
  {
    m / base
  }

  function LastDigit(m: nat, base: nat): (d: int)
    requires base > 0
  {
    var q := m / base;
    m - base * q
  }

  lemma DigitStep(n: nat, m: nat, base: nat, ds: seq<nat>, places: nat)
    requires 2 <= base < 256 && Rest(n, m, base, ds, places, true)
    ensures places > 0 && 0 <= LastDigit(m, base) < base
    ensures var q, d := Shortened(m, base), LastDigit(m, base);
      (q > 0 ==> q < m) && Rest(n, q, base, [d] + ds, places - 1, q != 0)
  {
    hide Pow2;
    var q, d := m / base, m % base;
    if m >= base {
      Shrinks(m, base);
      PowTwo(places, q);
      assert Digits(q, base) + [d] + ds == Digits(q, base) + ([d] + ds);
    } else {
      SmallDigit(m, base);
    }
  }

  lemma SmallDigit(m: nat, base: nat)
    requires m < base
    ensures m / base == 0 && m % base == m && base * (m / base) == 0
  {
  }

  lemma CharsCons(d: nat, ds: seq<nat>)
    requires d < 256 && Below256(ds)
    ensures Below256([d] + ds) && Chars([d] + ds) == [DigitChar(d)] + Chars(ds)
  {
  }

  lemma PowTwo(k: nat, q: nat)
    requires k > 0 && 0 < q && q * 2 < Pow2(k)
    ensures q < Pow2(k - 1) && k > 1
  {
  }

  /** The characters of `ds` are at the end of the buffer, in front of the closing NUL. */
  ghost predicate Filled(buf: Bytes, str: int, ds: seq<nat>) {
    0 <= str <= 32 && |buf| == 33 && Below256(ds) && buf[str..32] == Chars(ds)
  }

  lemma FilledStep(buf: Bytes, str: nat, ds: seq<nat>, d: nat)
    requires Filled(buf, str, ds) && 0 < str && d < 256
    ensures Filled(buf[str - 1 := DigitChar(d)], str - 1, [d] + ds)
  {
    hide DigitChar, Chars;
    CharsCons(d, ds);
    var now := buf[str - 1 := DigitChar(d)];
    assert now[str - 1..32] == [DigitChar(d)] + buf[str..32];
  }

  lemma FilledStart(buf: Bytes)
    requires |buf| == 33
    ensures Filled(buf, 32, [])
  {
  }

  lemma FilledDone(buf: Bytes, str: int, ds: seq<nat>)
    requires Filled(buf, str, ds)
    ensures 0 <= str <= 32 && Below256(ds) && |buf| == 33 && buf[str..32] == Chars(ds)
  {
  }

  class Printer {
    var output: Bytes

    constructor ()
      ensures output == []
    {
      output := [];
    }

    /** The digits are put in front of each other from the end of a buffer of 33 characters. */
    method PrintNumber(n: nat, base: nat)
      requires n < LONG && base < 256
      modifies this
      ensures output == old(output) + Number(n, base)
    {
      hide Digits, Pow2, DigitChar, ToNul, Chars, Rest, Filled, Below256, Shortened, LastDigit;
      var b := if base < 2 then 10 else base;
      var buf := new int[33];
      var m: nat, str, more := n, 32, true;
      buf[32] := 0;
      ghost var ds: seq<nat> := [];
      StartsEmpty(n, b);
      FilledStart(buf[..]);
      while more
        invariant 0 <= str <= 32 && output == old(output) && Filled(buf[..], str, ds)
        invariant Rest(n, m, b, ds, str, more)
        decreases more, m
      {
        ghost var was := buf[..];
        FilledDone(was, str, ds);
        DigitStep(n, m, b, ds, str);
        var d := LastDigit(m, b);
        FilledStep(was, str, ds, d);
        str := str - 1;
        buf[str] := CharOf(d);
        assert buf[..] == was[str := DigitChar(d)];
        ds, m := [d] + ds, Shortened(m, b);
        more := m != 0;
      }
      RestDone(n, m, b, ds, str);
      FilledDone(buf[..], str, ds);
      assert buf[str..32] == buf[..][str..32];
      output := output + ToNul(buf[str..32]);
    }

    /** `c < 10 ? c + '0' : c + 'A' - 10` for a signed `c`. */
    function CharOf(d: int): (r: int)
      requires 0 <= d < 256
      ensures r == DigitChar(d)
    {
      var c := if d < 128 then d else d - 256;
      if c < 10 then (c + 48) % 256 else (c + 55) % 256
    }

    method PrintLong(n: int, base: int)
      requires -0x8000_0000 <= n < 0x8000_0000
      modifies this
      ensures output == old(output) + Printed(n, base)
      ensures 1 <= base <= 208 && base != 10 ==>
        Denotes(output[|old(output)|..], if base == 1 then 10 else base, n % LONG)
    {
      hide Denotes, Number;
      if 1 <= base <= 208 && base != 10 { PrintedDenotes(n, base); }
      if base == 0 {
        output := output + [n % 256];
      } else if base == 10 {
        if n < 0 {
          output := output + [MINUS];
          var m := Wrap(-n);
          PrintNumber(m % LONG, 10);
        } else {
          PrintNumber(n, 10);
        }
      } else {
        PrintNumber(n % LONG, base % 256);
      }
    }

    method PrintLine(n: int)
      requires -0x8000_0000 <= n < 0x8000_0000
      modifies this
      ensures output == old(output) + Line(n)
      ensures |output| >= 2 && output[|output| - 2..] == ['\r' as int, '\n' as int]
    {
      PrintLong(n, 10);
      output := output + [CR];
      output := output + [LF];
    }
  }

  /** A stream that times out after `rest`. */
  class Reader {
    var rest: Bytes

    constructor (bytes: Bytes)
      ensures rest == bytes
    {
      rest := bytes;
    }

    /** -1 stands for a timeout. */
    method TimedPeek() returns (c: int)
      ensures c == if rest == [] then -1 else rest[0]
    {
      c := if rest == [] then -1 else rest[0];
    }

    method Read()
      modifies this
      ensures rest == if old(rest) == [] then [] else old(rest)[1..]
    {
      if rest != [] { rest := rest[1..]; }
    }

    method PeekNextDigit() returns (c: int)
      modifies this
      ensures rest == Skip(old(rest)) && c == if rest == [] then -1 else rest[0]
    {
      while true
        invariant Skip(rest) == Skip(old(rest))
        decreases |rest|
      {
        c := TimedPeek();
        if c < 0 || c == MINUS || IsDigit(c) { return; }
        Read();
      }
    }

    /** A timeout ends the number, and gives 0 when it comes before one. */
    method ParseInt(skipChar: int) returns (value: int)
      requires skipChar != -1
      modifies this
      ensures Parsed(value, rest) == NumberTextSpec.ParseInt(old(rest), skipChar)
    {
      var isNegative := false;
      value := 0;
      var c := PeekNextDigit();
      if c < 0 { return 0; }
      ghost var goal := Loop(rest, skipChar, false, 0);
      var more := true;
      while more
        invariant more ==> rest != [] && c == rest[0] && Loop(rest, skipChar, isNegative, value) == goal
        invariant !more ==> Parsed(Negated(value, isNegative), rest) == goal
        decreases more, |rest|
      {
        if c == skipChar {
        } else if c == MINUS {
          isNegative := true;
        } else if IsDigit(c) {
          value := Wrap(value * 10 + c - 48);
        }
        Read();
        c := TimedPeek();
        more := IsDigit(c) || c == skipChar;
      }
      if isNegative { value := Wrap(-value); }
    }
  }

  method PrintLines(ns: seq<int>) returns (printed: Bytes)
    requires Longs(ns)
    ensures printed == Lines(ns)
  {
    hide Line;
    var printer := new Printer();
    var i := 0;
    assert [] + Lines(ns[0..]) == Lines(ns);
    while i < |ns|
      invariant 0 <= i <= |ns| && printer.output + Lines(ns[i..]) == Lines(ns)
    {
      ghost var was := printer.output;
      assert ns[i..][1..] == ns[i + 1..];
      assert was + (Line(ns[i]) + Lines(ns[i + 1..])) == was + Line(ns[i]) + Lines(ns[i + 1..]);
      printer.PrintLine(ns[i]);
      i := i + 1;
    }
    printed := printer.output;
  }

  ghost predicate Longs(ns: seq<int>) {
    forall i | 0 <= i < |ns| :: -0x8000_0000 <= ns[i] < 0x8000_0000
  }

  method ParseInts(input: Bytes, n: nat) returns (values: seq<int>)
    ensures values == ParseMany(input, n)
  {
    hide NumberTextSpec.ParseInt;
    var reader := new Reader(input);
    values := [];
    while |values| < n
      invariant |values| <= n && values + ParseMany(reader.rest, n - |values|) == ParseMany(input, n)
    {
      ghost var was, rest := values, reader.rest;
      var value := reader.ParseInt(NO_SKIP_CHAR);
      assert ParseMany(rest, n - |was|) == [value] + ParseMany(reader.rest, n - |was| - 1);
      assert was + ([value] + ParseMany(reader.rest, n - |was| - 1)) == was + [value] + ParseMany(reader.rest, n - |was| - 1);
      values := values + [value];
    }
  }

  /** Printing any numbers line by line and reading as many back gives the same numbers. */
  method PrintThenParse(ns: seq<int>) returns (back: seq<int>)
    requires Longs(ns)
    ensures back == ns
  {
    var printed := PrintLines(ns);
    back := ParseInts(printed, |ns|);
    LinesRoundTrip(ns);
  }
}
