/**
 * The PrintInt and ReadInt system calls (userprog/exception.cc): a decimal
 * printer that fills and reverses a buffer, and a parser that takes its input
 * one console read at a time.
 */
module IntegerIO {
  import opened Options
  import opened Bytes
  import opened ConsoleChars
  import opened ConsoleInput

  const SPACE: Char := 32
  const TAB: Char := 9
  const MINUS: Char := 45
  const ZERO: Char := 48
  const NINE: Char := 57

  // Printing

  /** C's division and remainder by ten: the quotient truncates, the remainder has the dividend's sign. */
  function CDiv10(n: int): (q: int) { CDiv(n, 10) }
  function CMod10(n: int): (r: int) { n - 10 * CDiv10(n) }

  function DigitChar(d: int): (c: Char)
    requires 0 <= d < 10
  {
    ZERO + d
  }

  /** The usual decimal digits of a number, most significant first. */
  function Digits(m: nat): (s: seq<Char>)
    ensures |s| > 0
  {
    if m < 10 then [DigitChar(m)] else Digits(m / 10) + [DigitChar(m % 10)]
  }

  /** The decimal numeral of an integer. */
  function Numeral(n: int): (s: seq<Char>) {
    (if n < 0 then [MINUS] else []) + Digits(Magnitude(n))
  }

  function Reversed(s: seq<Char>): (r: seq<Char>)
    ensures |r| == |s|
    ensures forall k :: 0 <= k < |s| ==> r[k] == s[|s| - 1 - k]
  {
    seq(|s|, k requires 0 <= k < |s| => s[|s| - 1 - k])
  }

  /** The digits have no leading zero. */
  lemma {:induction false} NoLeadingZero(m: nat)
    ensures m > 0 ==> Digits(m)[0] != 48
    ensures m == 0 ==> Digits(m) == [48]
  {
    if m >= 10 {
      NoLeadingZero(m / 10);
    }
  }

  lemma {:induction false} DigitsLength(m: nat, k: nat)
    requires m < Power10(k + 1)
    ensures |Digits(m)| <= k + 1
  {
    if m >= 10 {
      assert k > 0;
      DigitsLength(m / 10, k - 1);
    }
  }

  function Power10(k: nat): (p: nat) { if k == 0 then 1 else 10 * Power10(k - 1) }

  lemma Ten()
    ensures Power10(10) == 100_0000_0000
  {
    assert Power10(5) == 10_0000;
  }

  /** What is left to print after some digits have been produced. */
  function Left(tmp: int): (s: seq<Char>) { if tmp == 0 then [] else Digits(Magnitude(tmp)) }

  /** The digit produced is the last one of what is left. */
  lemma OneDigit(tmp: int)
    ensures 0 <= Magnitude(CMod10(tmp)) < 10
    ensures Digits(Magnitude(tmp)) == Left(CDiv10(tmp)) + [DigitChar(Magnitude(CMod10(tmp)))]
    ensures Magnitude(CDiv10(tmp)) == Magnitude(tmp) / 10
  {
    if Magnitude(tmp) < 10 {
      assert CDiv10(tmp) == 0;
    }
  }

  lemma ReversedSnoc(s: seq<Char>, c: Char)
    ensures Reversed(s + [c]) == [c] + Reversed(s)
  {
  }

  /** Reverses the first `len` characters in place. */
  method ReverseBuffer(str: array<Char>, len: nat)
    requires len <= str.Length
    modifies str
    ensures str[..len] == Reversed(old(str[..len]))
  {
    var i := 0;
    while i < len / 2
      invariant 0 <= i <= len / 2
      invariant forall k :: 0 <= k < i ==> str[k] == old(str[..len])[len - 1 - k]
      invariant forall k :: len - i <= k < len ==> str[k] == old(str[..len])[len - 1 - k]
      invariant forall k :: i <= k < len - i ==> str[k] == old(str[..len])[k]
    {
      var j := len - i - 1;
      var tmp := str[i];
      str[i] := str[j];
      str[j] := tmp;
      i := i + 1;
    }
  }

  /** The digit loop: the buffer holds the numeral backwards, sign last. */
  method FillBackwards(number: int32, str: array<Char>) returns (len: nat)
    requires str.Length == 13
    modifies str
    ensures len <= 11 && Reversed(str[..len]) == Numeral(number)
  {
    hide Digits, CDiv10, CMod10, Reversed;
    var tmpNumber: int := number;
    len := 0;
    NumeralFits(number);
    OneDigit(tmpNumber);
    str[len] := DigitChar(Magnitude(CMod10(tmpNumber)));
    len := len + 1;
    tmpNumber := CDiv10(tmpNumber);
    assert str[..1] == [] + [str[0]];
    ReversedSnoc([], str[0]);
    assert Reversed([]) == [];
    while tmpNumber != 0
      invariant len >= 1 && len + |Left(tmpNumber)| <= 10
      invariant Left(tmpNumber) + Reversed(str[..len]) == Digits(Magnitude(number))
      decreases |Left(tmpNumber)|
    {
      OneDigit(tmpNumber);
      var d := DigitChar(Magnitude(CMod10(tmpNumber)));
      ghost var before := str[..len];
      str[len] := d;
      len := len + 1;
      assert str[..len] == before + [d];
      ReversedSnoc(before, d);
      assert Left(tmpNumber) + Reversed(before)
          == Left(CDiv10(tmpNumber)) + ([d] + Reversed(before));
      tmpNumber := CDiv10(tmpNumber);
    }
    if number < 0 {
      ghost var before := str[..len];
      str[len] := MINUS;
      len := len + 1;
      assert str[..len] == before + [MINUS];
      ReversedSnoc(before, MINUS);
    }
  }

  lemma NumeralFits(n: int32)
    ensures |Digits(Magnitude(n))| <= 10
  {
    Ten();
    DigitsLength(Magnitude(n), 9);
  }

  /** What is written to the console is the numeral, at most 11 characters of the 13 allocated. */
  method PrintInt(number: int32) returns (written: seq<Char>)
    ensures written == Numeral(number) && |written| <= 11
  {
    var str := new Char[13];
    var len := FillBackwards(number, str);
    ReverseBuffer(str, len);
    written := str[..len];
  }

  // Reading

  /** A console read of one character: what it stores and what it returns. */
  function ReadOne(ch: Char): (r: (Char, int)) {
    if ch == NEWLINE then (0, 0) else if ch == CTRL_A then (0, -1) else (ch, 1)
  }

  /** That is what a finished console read with limit one does. */
  lemma ReadOneIsRead(d: Done)
    requires DoneOk(d) && d.limit == 1
    ensures |d.raw| == 1 && d.into == [ReadOne(d.raw[0]).0] && d.result == ReadOne(d.raw[0]).1
  {
    assert |d.raw| == 1;
    if Terminator(d.raw[0]) {
      assert Body(d.raw) == [];
    } else {
      assert Body(d.raw) == d.raw;
    }
  }

  predicate Blank(c: Char) { c == SPACE || c == TAB || c == NEWLINE }
  predicate IsDigit(c: Char) { ZERO <= c <= NINE }

  /** After the blanks: the character at hand, the count of its read, and the rest. */
  datatype Seen = Seen(c: Char, count: int, rest: seq<Char>)

  /** `None` where the call waits for more input. */
  function SkipBlanks(s: seq<Char>): (r: Option<Seen>) {
    if s == [] then None
    else
      var (c, count) := ReadOne(s[0]);
      if count == -1 || !(Blank(c) || count == 0) then Some(Seen(c, count, s[1..])) else SkipBlanks(s[1..])
  }

  /** One step of the accumulator, which is left alone once it has changed sign. */
  function Accumulated(res: int32, c: Char, negative: bool): (r: int32) {
    if negative then
      if res <= 0 then Wrap32(res * 10 - (c - ZERO)) else res
    else
      if res >= 0 then Wrap32(res * 10 + (c - ZERO)) else res
  }

  function Accumulate(s: Seen, res: int32, negative: bool): (r: Option<(int32, seq<Char>)>)
    decreases |s.rest|
  {
    if IsDigit(s.c) && s.count == 1 then
      if s.rest == [] then None
      else
        var (c, count) := ReadOne(s.rest[0]);
        Accumulate(Seen(c, count, s.rest[1..]), Accumulated(res, s.c, negative), negative)
    else
      Some((res, s.rest))
  }

  /** The value returned and the input left; `None` where the call waits for more input. */
  function ParseInt(s: seq<Char>): (r: Option<(int32, seq<Char>)>) {
    var seen := SkipBlanks(s);
    if seen.None? then None
    else if seen.value.count == -1 || !(seen.value.c == MINUS || IsDigit(seen.value.c)) then
      Some((0, seen.value.rest))
    else if seen.value.c == MINUS then
      if seen.value.rest == [] then None
      else
        var (c, count) := ReadOne(seen.value.rest[0]);
        var a := Accumulate(Seen(c, count, seen.value.rest[1..]), 0, true);
        if a.Some? && a.value.0 > 0 then Some((0, a.value.1)) else a
    else
      var a := Accumulate(seen.value, 0, false);
      if a.Some? && a.value.0 < 0 then Some((0, a.value.1)) else a
  }

  /** The blanks loop; `pos` counts the characters consumed. */
  method SkipLoop(input: seq<Char>) returns (blocked: bool, c: Char, count: int, pos: nat)
    ensures pos <= |input|
    ensures blocked <==> SkipBlanks(input).None?
    ensures !blocked ==> SkipBlanks(input) == Some(Seen(c, count, input[pos..]))
  {
    pos, c, count := 0, 0, 0;
    while true
      invariant pos <= |input| && SkipBlanks(input) == SkipBlanks(input[pos..])
      decreases |input| - pos
    {
      if pos == |input| {
        return true, c, count, pos;
      }
      var read := ReadOne(input[pos]);
      c, count := read.0, read.1;
      assert input[pos..][1..] == input[pos + 1..];
      pos := pos + 1;
      if count == -1 || !(Blank(c) || count == 0) {
        return false, c, count, pos;
      }
    }
  }

  /** The accumulator loop, for either sign. */
  method DigitLoop(input: seq<Char>, start: nat, first: Char, firstCount: int, negative: bool)
    returns (blocked: bool, res: int32, pos: nat)
    requires start <= |input|
    ensures start <= pos <= |input|
    ensures var a := Accumulate(Seen(first, firstCount, input[start..]), 0, negative);
            (blocked <==> a.None?) && (!blocked ==> a == Some((res, input[pos..])))
  {
    res, pos := 0, start;
    var c, count := first, firstCount;
    ghost var a := Accumulate(Seen(first, firstCount, input[start..]), 0, negative);
    while IsDigit(c) && count == 1
      invariant start <= pos <= |input|
      invariant Accumulate(Seen(c, count, input[pos..]), res, negative) == a
      decreases |input| - pos
    {
      res := Accumulated(res, c, negative);
      if pos == |input| {
        return true, res, pos;
      }
      var read := ReadOne(input[pos]);
      assert input[pos..][1..] == input[pos + 1..];
      c, count := read.0, read.1;
      pos := pos + 1;
    }
    blocked := false;
  }

  method ReadInt(input: seq<Char>) returns (r: Option<(int32, seq<Char>)>)
    ensures r == ParseInt(input)
  {
    hide Accumulate, SkipBlanks;
    var blocked, c, count, pos := SkipLoop(input);
    if blocked {
      return None;
    }
    if count == -1 || !(c == MINUS || IsDigit(c)) {
      return Some((0, input[pos..]));
    }
    var res: int32;
    if c == MINUS {
      if pos == |input| {
        return None;
      }
      var read := ReadOne(input[pos]);
      assert input[pos..][1..] == input[pos + 1..];
      blocked, res, pos := DigitLoop(input, pos + 1, read.0, read.1, true);
      if res > 0 {
        res := 0;
      }
    } else {
      blocked, res, pos := DigitLoop(input, pos, c, count, false);
      if res < 0 {
        res := 0;
      }
    }
    return if blocked then None else Some((res, input[pos..]));
  }

  // Round trip

  /** The number that a digit string continues from `acc`. */
  function Value(acc: nat, ds: seq<Char>): (v: nat)
    requires forall i :: 0 <= i < |ds| ==> IsDigit(ds[i])
    ensures acc <= v
    decreases |ds|
  {
    if ds == [] then acc else assert IsDigit(ds[0]); Value(acc * 10 + (ds[0] - ZERO), ds[1..])
  }

  lemma {:induction false} ValueSnoc(acc: nat, ds: seq<Char>, c: Char)
    requires (forall i :: 0 <= i < |ds| ==> IsDigit(ds[i])) && IsDigit(c)
    ensures Value(acc, ds + [c]) == Value(acc, ds) * 10 + (c - ZERO)
    decreases |ds|
  {
    if ds == [] {
      assert Value(acc * 10 + (c - ZERO), ([c])[1..]) == acc * 10 + (c - ZERO);
      assert ds + [c] == [c];
    } else {
      ValueSnoc(acc * 10 + (ds[0] - ZERO), ds[1..], c);
      assert (ds + [c])[1..] == ds[1..] + [c];
    }
  }

  lemma {:induction false} ValueOfDigits(m: nat)
    ensures forall i :: 0 <= i < |Digits(m)| ==> IsDigit(Digits(m)[i])
    ensures Value(0, Digits(m)) == m
  {
    if m < 10 {
      assert Digits(m)[1..] == [];
    } else {
      ValueOfDigits(m / 10);
      ValueSnoc(0, Digits(m / 10), DigitChar(m % 10));
    }
  }

  /** No operation of the accumulator leaves the 32-bit range on these digits. */
  ghost predicate NoOverflow(acc: int, ds: seq<Char>, negative: bool)
    requires forall i :: 0 <= i < |ds| ==> IsDigit(ds[i])
    decreases |ds|
  {
    ds == [] ||
    (var n := if negative then acc * 10 - (ds[0] - ZERO) else acc * 10 + (ds[0] - ZERO);
     -0x8000_0000 <= acc * 10 < 0x8000_0000 && -0x8000_0000 <= n < 0x8000_0000 && NoOverflow(n, ds[1..], negative))
  }

  function Sign(m: int, negative: bool): (n: int) { if negative then -m else m }

  predicate InRange(n: int) { -0x8000_0000 <= n < 0x8000_0000 }

  /** While the value fits, the accumulator holds it exactly when the next character `ch` has been read. */
  lemma {:induction false} AccumulateDigits(acc: nat, ds: seq<Char>, ch: Char, rest: seq<Char>, negative: bool)
    requires ds != [] && forall i :: 0 <= i < |ds| ==> IsDigit(ds[i])
    requires InRange(Sign(Value(acc, ds), negative)) && InRange(Sign(acc, negative))
    ensures NoOverflow(Sign(acc, negative), ds, negative)
    ensures Accumulate(Seen(ds[0], 1, ds[1..] + [ch] + rest), Sign(acc, negative), negative)
         == Accumulate(Seen(ReadOne(ch).0, ReadOne(ch).1, rest), Sign(Value(acc, ds), negative), negative)
    decreases |ds|
  {
    hide Wrap32, Accumulated;
    var next := acc * 10 + (ds[0] - ZERO);
    var tail := ds[1..] + [ch] + rest;
    assert IsDigit(ds[0]);
    assert acc * 10 <= next <= Value(acc, ds);
    OneStep(acc, ds[0], negative);
    if |ds| == 1 {
      assert tail == [ch] + rest && tail[1..] == rest;
      assert Value(acc, ds) == Value(next, []);
    } else {
      var ds' := ds[1..];
      assert IsDigit(ds'[0]);
      assert tail[0] == ds'[0] && tail[1..] == ds'[1..] + [ch] + rest;
      AccumulateDigits(next, ds', ch, rest, negative);
    }
  }

  lemma Stops(sep: Char, rest: seq<Char>, res: int32, negative: bool)
    requires !IsDigit(sep)
    ensures Accumulate(Seen(ReadOne(sep).0, ReadOne(sep).1, rest), res, negative) == Some((res, rest))
  {
  }

  lemma OneStep(acc: nat, c: Char, negative: bool)
    requires IsDigit(c) && InRange(Sign(acc * 10 + (c - ZERO), negative))
    ensures InRange(Sign(acc, negative)) && InRange(Sign(acc * 10, negative))
    ensures Accumulated(Sign(acc, negative), c, negative) == Sign(acc * 10 + (c - ZERO), negative)
  {
  }

  /** The accumulator after a string of digits, with its wrap-around and its guard. */
  function Folded(res: int32, ds: seq<Char>, negative: bool): (r: int32)
    decreases |ds|
  {
    if ds == [] then res else Folded(Accumulated(res, ds[0], negative), ds[1..], negative)
  }

  /** Overflowing or not, the digits are folded up and consumed with the separator, and nothing more. */
  lemma {:induction false} AccumulateFolds(res: int32, ds: seq<Char>, sep: Char, rest: seq<Char>, negative: bool)
    requires ds != [] && (forall i :: 0 <= i < |ds| ==> IsDigit(ds[i])) && !IsDigit(sep)
    ensures Accumulate(Seen(ds[0], 1, ds[1..] + [sep] + rest), res, negative) == Some((Folded(res, ds, negative), rest))
    decreases |ds|
  {
    hide Wrap32, Accumulated;
    var tail := ds[1..] + [sep] + rest;
    assert IsDigit(ds[0]);
    if |ds| == 1 {
      assert tail == [sep] + rest && tail[1..] == rest;
    } else {
      var ds' := ds[1..];
      assert IsDigit(ds'[0]);
      assert tail[0] == ds'[0] && tail[1..] == ds'[1..] + [sep] + rest;
      AccumulateFolds(Accumulated(res, ds[0], negative), ds', sep, rest, negative);
    }
  }

  lemma {:induction false} FoldedSnoc(res: int32, ds: seq<Char>, c: Char, negative: bool)
    ensures Folded(res, ds + [c], negative) == Accumulated(Folded(res, ds, negative), c, negative)
    decreases |ds|
  {
    hide Accumulated;
    if ds == [] {
      assert (ds + [c])[1..] == [];
    } else {
      FoldedSnoc(Accumulated(res, ds[0], negative), ds[1..], c, negative);
      assert (ds + [c])[1..] == ds[1..] + [c];
    }
  }

  /**
   * Any decimal numeral that fits in 32 bits and is followed by a separator
   * reads as its value and is consumed together with the separator.
   */
  lemma DigitsReadBack(ds: seq<Char>, sep: Char, rest: seq<Char>, negative: bool)
    requires ds != [] && (forall i :: 0 <= i < |ds| ==> IsDigit(ds[i])) && !IsDigit(sep)
    requires InRange(Sign(Value(0, ds), negative))
    ensures NoOverflow(0, ds, negative)
    ensures ParseInt((if negative then [MINUS] else []) + ds + [sep] + rest)
         == Some((Sign(Value(0, ds), negative), rest))
  {
    hide Accumulate, Value;
    AccumulateDigits(0, ds, sep, rest, negative);
    Stops(sep, rest, Sign(Value(0, ds), negative), negative);
    ParseNumeral(ds, sep, rest, negative);
  }

  /** On a numeral the blanks loop stops at once and the accumulator starts at its first digit. */
  lemma ParseNumeral(ds: seq<Char>, sep: Char, rest: seq<Char>, negative: bool)
    requires ds != [] && forall i :: 0 <= i < |ds| ==> IsDigit(ds[i])
    ensures var a := Accumulate(Seen(ds[0], 1, ds[1..] + [sep] + rest), 0, negative);
            ParseInt((if negative then [MINUS] else []) + ds + [sep] + rest)
            == if a.Some? && (if negative then a.value.0 > 0 else a.value.0 < 0) then Some((0, a.value.1)) else a
  {
    hide Accumulate;
    var s := (if negative then [MINUS] else []) + ds + [sep] + rest;
    var tail := ds[1..] + [sep] + rest;
    assert IsDigit(ds[0]);
    if negative {
      assert s[0] == MINUS && s[1..] == ds + [sep] + rest;
      assert s[1..][0] == ds[0] && s[1..][1..] == tail;
      assert SkipBlanks(s) == Some(Seen(MINUS, 1, s[1..]));
    } else {
      assert s[0] == ds[0] && s[1..] == tail;
      assert SkipBlanks(s) == Some(Seen(ds[0], 1, tail));
    }
  }

  // Overflow

  /** The sign that tells the code that an accumulator has overflowed. */
  predicate WrongSign(res: int32, negative: bool) { if negative then res > 0 else res < 0 }

  /** The 32 bits of the number that the first `k` digits stand for. */
  function Partial(ds: seq<Char>, k: nat, negative: bool): (n: int32)
    requires k <= |ds| && forall i :: 0 <= i < |ds| ==> IsDigit(ds[i])
  {
    Wrap32(Sign(Value(0, ds[..k]), negative))
  }

  /** Some prefix of the digits, cut to 32 bits, has the wrong sign. */
  ghost predicate Caught(ds: seq<Char>, negative: bool)
    requires forall i :: 0 <= i < |ds| ==> IsDigit(ds[i])
  {
    exists k :: 0 <= k <= |ds| && WrongSign(Partial(ds, k, negative), negative)
  }

  /** Wrapping at every digit or once at the end comes to the same. */
  lemma WrapStep(x: int, d: int)
    ensures Wrap32(Wrap32(x) * 10 + d) == Wrap32(x * 10 + d)
  {
    var w := Wrap32(x);
    var q := x / 0x1_0000_0000 + if x % 0x1_0000_0000 < 0x8000_0000 then 0 else 1;
    assert x == w + 0x1_0000_0000 * q;
    SameWord(w * 10 + d, x * 10 + d, 10 * q);
  }

  lemma SameWord(a: int, b: int, q: int)
    requires b == a + 0x1_0000_0000 * q
    ensures Wrap32(a) == Wrap32(b)
  {
    assert b % 0x1_0000_0000 == a % 0x1_0000_0000;
  }

  lemma AccumulatedWraps(x: int, c: Char, negative: bool)
    requires !WrongSign(Wrap32(x), negative)
    ensures Accumulated(Wrap32(x), c, negative) == Wrap32(x * 10 + Sign(c - ZERO, negative))
  {
    hide Wrap32;
    WrapStep(x, Sign(c - ZERO, negative));
  }

  /**
   * The accumulator holds the 32 bits of the value as long as no prefix has the
   * wrong sign; once one has, it keeps the wrong sign for good.
   */
  lemma {:induction false} FoldedIs(ds: seq<Char>, negative: bool)
    requires forall i :: 0 <= i < |ds| ==> IsDigit(ds[i])
    ensures if Caught(ds, negative) then WrongSign(Folded(0, ds, negative), negative)
            else Folded(0, ds, negative) == Partial(ds, |ds|, negative)
    decreases |ds|
  {
    hide Wrap32, Accumulated, WrongSign;
    if ds == [] {
      EmptyPartial(ds, negative);
    } else {
      var front, c := ds[..|ds| - 1], ds[|ds| - 1];
      assert ds == front + [c] && ds[..|ds|] == ds;
      FoldedIs(front, negative);
      FoldedSnoc(0, front, c, negative);
      ValueSnoc(0, front, c);
      CaughtSnoc(front, c, negative);
      if Caught(front, negative) {
        WrongSignStays(Folded(0, front, negative), c, negative);
      } else {
        assert front[..|front|] == front;
        assert !WrongSign(Partial(front, |front|, negative), negative);
        AccumulatedWraps(Sign(Value(0, front), negative), c, negative);
      }
    }
  }

  lemma EmptyPartial(ds: seq<Char>, negative: bool)
    requires ds == []
    ensures Partial(ds, 0, negative) == 0 && !Caught(ds, negative)
  {
  }

  lemma WrongSignStays(res: int32, c: Char, negative: bool)
    requires WrongSign(res, negative)
    ensures Accumulated(res, c, negative) == res
  {
  }

  lemma CaughtSnoc(front: seq<Char>, c: Char, negative: bool)
    requires (forall i :: 0 <= i < |front| ==> IsDigit(front[i])) && IsDigit(c)
    ensures var ds := front + [c];
            Caught(ds, negative) <==> Caught(front, negative) || WrongSign(Partial(ds, |ds|, negative), negative)
  {
    hide Wrap32, WrongSign;
    var ds := front + [c];
    assert forall k :: 0 <= k <= |front| ==> ds[..k] == front[..k];
    forall k | 0 <= k <= |front|
      ensures Partial(ds, k, negative) == Partial(front, k, negative)
    {
    }
    if Caught(front, negative) {
      var k :| 0 <= k <= |front| && WrongSign(Partial(front, k, negative), negative);
      assert WrongSign(Partial(ds, k, negative), negative);
    }
    if Caught(ds, negative) {
      var k :| 0 <= k <= |ds| && WrongSign(Partial(ds, k, negative), negative);
      assert k <= |front| ==> WrongSign(Partial(front, k, negative), negative);
    }
  }

  /**
   * What any numeral reads as, whatever its size: 0 when some prefix of its
   * digits has the wrong sign in 32 bits, and otherwise the 32 bits of its
   * value. It is consumed together with the separator.
   */
  lemma NumeralReadsAs(ds: seq<Char>, sep: Char, rest: seq<Char>, negative: bool)
    requires ds != [] && (forall i :: 0 <= i < |ds| ==> IsDigit(ds[i])) && !IsDigit(sep)
    ensures ParseInt((if negative then [MINUS] else []) + ds + [sep] + rest)
         == Some((if Caught(ds, negative) then 0 else Wrap32(Sign(Value(0, ds), negative)), rest))
  {
    hide Accumulate, Value, ParseInt, Wrap32, Folded;
    AccumulateFolds(0, ds, sep, rest, negative);
    ParseNumeral(ds, sep, rest, negative);
    FoldedIs(ds, negative);
    assert ds[..|ds|] == ds;
    assert !Caught(ds, negative) ==> !WrongSign(Partial(ds, |ds|, negative), negative);
  }

  /** An overflowing numeral reads as 0 exactly when it is caught or a multiple of 2^32. */
  lemma OverflowReadsZeroIff(ds: seq<Char>, sep: Char, rest: seq<Char>, negative: bool)
    requires ds != [] && (forall i :: 0 <= i < |ds| ==> IsDigit(ds[i])) && !IsDigit(sep)
    requires !InRange(Sign(Value(0, ds), negative))
    ensures var r := ParseInt((if negative then [MINUS] else []) + ds + [sep] + rest);
            r.Some? && (r.value.0 == 0 <==> Caught(ds, negative) || Value(0, ds) % 0x1_0000_0000 == 0)
  {
    hide ParseInt, Caught;
    NumeralReadsAs(ds, sep, rest, negative);
    ZeroWord(Value(0, ds), negative);
  }

  lemma ZeroWord(v: nat, negative: bool)
    ensures Wrap32(Sign(v, negative)) == 0 <==> v % 0x1_0000_0000 == 0
  {
  }

  /** A numeral that fits is never caught. */
  lemma FitsNotCaught(ds: seq<Char>, negative: bool)
    requires forall i :: 0 <= i < |ds| ==> IsDigit(ds[i])
    requires InRange(Sign(Value(0, ds), negative))
    ensures !Caught(ds, negative)
  {
    forall k | 0 <= k <= |ds|
      ensures !WrongSign(Partial(ds, k, negative), negative)
    {
      PrefixValue(0, ds, k);
    }
  }

  lemma {:induction false} PrefixValue(acc: nat, ds: seq<Char>, k: nat)
    requires k <= |ds| && forall i :: 0 <= i < |ds| ==> IsDigit(ds[i])
    ensures Value(acc, ds[..k]) <= Value(acc, ds)
    decreases k
  {
    if k > 0 {
      assert IsDigit(ds[0]) && ds[..k][1..] == ds[1..][..k - 1];
      PrefixValue(acc * 10 + (ds[0] - ZERO), ds[1..], k - 1);
    }
  }

  lemma WholeCaught(ds: seq<Char>, negative: bool)
    requires forall i :: 0 <= i < |ds| ==> IsDigit(ds[i])
    requires WrongSign(Wrap32(Sign(Value(0, ds), negative)), negative)
    ensures Caught(ds, negative)
  {
    assert ds[..|ds|] == ds;
    assert WrongSign(Partial(ds, |ds|, negative), negative);
  }

  /** An overflow that the sign test catches: 2^31 reads as 0. */
  lemma OverflowCaught()
    ensures ParseInt(Numeral(0x8000_0000) + [SPACE]) == Some((0, []))
  {
    hide ParseInt, Digits, Value, Caught;
    var ds := Digits(0x8000_0000);
    ValueOfDigits(0x8000_0000);
    WholeCaught(ds, false);
    NumeralReadsAs(ds, SPACE, [], false);
    assert Numeral(0x8000_0000) + [SPACE] == [] + ds + [SPACE] + [];
  }

  /** The sign test misses an overflow that wraps all the way round: 2^32 + 5 reads as 5. */
  lemma OverflowMissed()
    ensures ParseInt(Numeral(0x1_0000_0005) + [SPACE]) == Some((5, []))
  {
    hide Digits, ParseInt, Accumulate;
    var fits, last := 429496730, DigitChar(1);
    var ds := Digits(fits);
    LastDigit(0x1_0000_0005);
    ValueOfDigits(fits);
    var all := ds + [last];
    assert all[0] == ds[0] && all[1..] + [SPACE] + [] == ds[1..] + [last] + [SPACE];
    assert Numeral(0x1_0000_0005) + [SPACE] == [] + all + [SPACE] + [];
    ParseNumeral(all, SPACE, [], false);
    AccumulateDigits(0, ds, last, [SPACE], false);
    FinalDigit(last, fits);
  }

  lemma LastDigit(m: nat)
    requires m >= 10
    ensures Digits(m) == Digits(m / 10) + [DigitChar(m % 10)]
  {
  }

  lemma FinalDigit(c: Char, res: int32)
    requires IsDigit(c)
    ensures Accumulate(Seen(c, 1, [SPACE]), res, false) == Some((Accumulated(res, c, false), []))
  {
    assert ([SPACE])[1..] == [];
  }

  // Input that is not a numeral

  /** Blanks before a number do not matter: space, tab and newline. */
  lemma BlankSkipped(c: Char, s: seq<Char>)
    requires c == 32 || c == 9 || c == 10
    ensures ParseInt([c] + s) == ParseInt(s)
  {
    hide Accumulate;
    assert ([c] + s)[1..] == s;
  }

  /** Any other character that does not begin a number is consumed and reads as 0; so does the end of input. */
  lemma OtherReadsZero(c: Char, s: seq<Char>)
    requires c != 32 && c != 9 && c != 10 && c != 45 && !(48 <= c <= 57)
    ensures ParseInt([c] + s) == Some((0, s))
  {
    assert ([c] + s)[1..] == s;
  }

  /** A minus sign without digits reads as 0 and takes the character after it. */
  lemma LoneMinus(c: Char, s: seq<Char>)
    requires !IsDigit(c)
    ensures ParseInt([MINUS, c] + s) == Some((0, s))
  {
    var t := [MINUS, c] + s;
    assert t[1..] == [c] + s && t[1..][0] == c && t[1..][1..] == s;
  }

  /** Reading back one printed number. */
  lemma PrintThenRead(n: int32, sep: Char, rest: seq<Char>)
    requires !IsDigit(sep)
    ensures ParseInt(Numeral(n) + [sep] + rest) == Some((n, rest))
  {
    hide Digits, ParseInt;
    ValueOfDigits(Magnitude(n));
    DigitsReadBack(Digits(Magnitude(n)), sep, rest, n < 0);
  }

  /** Numbers printed one after the other, each followed by its separator. */
  function Printed(ns: seq<int32>, seps: seq<Char>): (s: seq<Char>)
    requires |ns| == |seps|
  {
    if ns == [] then [] else Numeral(ns[0]) + [seps[0]] + Printed(ns[1..], seps[1..])
  }

  /** `count` calls of ReadInt. */
  function ParseInts(s: seq<Char>, count: nat): (r: Option<(seq<int32>, seq<Char>)>)
    decreases count
  {
    if count == 0 then Some(([], s))
    else
      var first := ParseInt(s);
      if first.None? then None
      else
        var others := ParseInts(first.value.1, count - 1);
        if others.None? then None
        else Some(([first.value.0] + others.value.0, others.value.1))
  }

  /** Any list of 32-bit integers reads back as printed. */
  lemma {:induction false} RoundTrip(ns: seq<int32>, seps: seq<Char>, rest: seq<Char>)
    requires |ns| == |seps| && forall i :: 0 <= i < |seps| ==> !IsDigit(seps[i])
    ensures ParseInts(Printed(ns, seps) + rest, |ns|) == Some((ns, rest))
    decreases |ns|
  {
    hide ParseInt, Numeral;
    if ns == [] {
      assert Printed(ns, seps) + rest == rest;
    } else {
      var more := Printed(ns[1..], seps[1..]) + rest;
      assert Printed(ns, seps) + rest == Numeral(ns[0]) + [seps[0]] + more;
      PrintThenRead(ns[0], seps[0], more);
      RoundTrip(ns[1..], seps[1..], rest);
      assert [ns[0]] + ns[1..] == ns && |ns[1..]| == |ns| - 1;
    }
  }
}
