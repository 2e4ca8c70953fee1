/**
 Writing and reading unsigned 64-bit numbers: `print_number` fills a 32-byte buffer from the end, and
 `from_chars` reads digits with an overflow check (weensyos/lib.cc:253-284, 374-403).
 */
module Numbers {
  import opened Wrappers
  import opened Arithmetic

  const TWO_64 := 0x1_0000_0000_0000_0000
  const NUMBUFSIZ := 32

  // ---- Digits ----

  /** The value that `from_chars` gives to a character. */
  function DigitOf(c: char, base: nat): (d: Option<nat>)
    requires 2 <= base <= 36
    ensures d.Some? ==> d.value < base
  {
    if '0' <= c && c as int < '0' as int + base then Some(c as int - '0' as int)
    else if 'a' <= c && c as int < 'a' as int + base - 10 then Some(c as int - 'a' as int + 10)
    else if 'A' <= c && c as int < 'A' as int + base - 10 then Some(c as int - 'A' as int + 10)
    else None
  }

  /** The value the character should have: ten decimal digits, then letters of either case. */
  function TrueDigit(c: char, base: nat): Option<nat> {
    var d := if '0' <= c <= '9' then c as int - '0' as int
             else if 'a' <= c <= 'z' then c as int - 'a' as int + 10
             else if 'A' <= c <= 'Z' then c as int - 'A' as int + 10
             else base;
    if d < base then Some(d) else None
  }

  /** The first test of the code is too wide above base 10: it also takes the characters after '9', and
      above base 17 it takes upper-case letters for other digits. */
  lemma DigitsExact(base: nat)
    requires 2 <= base <= 36
    ensures (forall c :: DigitOf(c, base) == TrueDigit(c, base)) <==> base <= 10
    ensures (forall c :: 'A' <= c <= 'Z' ==> DigitOf(c, base) == TrueDigit(c, base)) <==> base <= 17
    ensures DigitOf(':', 16) == Some(10) && TrueDigit(':', 16) == None
  {
    if base > 10 { assert DigitOf(':', base) != TrueDigit(':', base); }
    if base > 17 { assert DigitOf('A', base) != TrueDigit('A', base); }
  }

  /** How many characters from the start are digits. */
  function DigitRun(s: string, base: nat): (n: nat)
    requires 2 <= base <= 36
    ensures n <= |s|
    decreases |s|
  {
    if s == "" || DigitOf(s[0], base).None? then 0 else 1 + DigitRun(s[1..], base)
  }

  predicate AllDigits(s: string, base: nat)
    requires 2 <= base <= 36
  {
    forall i :: 0 <= i < |s| ==> DigitOf(s[i], base).Some?
  }

  function ValueOf(s: string, base: nat): nat
    requires 2 <= base <= 36 && AllDigits(s, base)
    decreases |s|
  {
    if s == "" then 0
    else
      LastDigit(s, base);
      var v, d := ValueOf(s[..|s| - 1], base), DigitOf(s[|s| - 1], base).value;
      Larger(v, d, base);
      v * base + d
  }

  lemma LastDigit(s: string, base: nat)
    requires 2 <= base <= 36 && AllDigits(s, base) && s != ""
    ensures AllDigits(s[..|s| - 1], base) && DigitOf(s[|s| - 1], base).Some?
  {
    hide DigitOf;
  }

  lemma {:induction false} RunIs(s: string, base: nat, n: nat)
    requires 2 <= base <= 36 && n <= |s| && AllDigits(s[..n], base)
    requires n < |s| ==> DigitOf(s[n], base).None?
    ensures DigitRun(s, base) == n
    decreases n
  {
    if n > 0 {
      assert DigitOf(s[..n][0], base).Some?;
      assert s[1..][..n - 1] == s[..n][1..];
      RunIs(s[1..], base, n - 1);
    }
  }

  // ---- Reading ----

  datatype Error = Fine | Invalid | Range

  /** `from_chars` for `unsigned long`: how far it read, the error, and the value when there is none. */
  method FromChars(s: string, base: nat) returns (n: nat, ec: Error, value: nat)
    requires 2 <= base <= 36
    ensures n == DigitRun(s, base) && AllDigits(s[..n], base)
    ensures ec == if n == 0 then Invalid else if ValueOf(s[..n], base) >= TWO_64 then Range else Fine
    ensures ec == Fine ==> value == ValueOf(s[..n], base)
  {
    var x: nat := 0;
    var overflow := false;
    n := 0;
    while n < |s|
      invariant n <= |s| && x < TWO_64 && AllDigits(s[..n], base)
      invariant if overflow then ValueOf(s[..n], base) >= TWO_64 else x == ValueOf(s[..n], base)
    {
      var digit: nat;
      if '0' <= s[n] && s[n] as int < '0' as int + base {
        digit := s[n] as int - '0' as int;
      } else if 'a' <= s[n] && s[n] as int < 'a' as int + base - 10 {
        digit := s[n] as int - 'a' as int + 10;
      } else if 'A' <= s[n] && s[n] as int < 'A' as int + base - 10 {
        digit := s[n] as int - 'A' as int + 10;
      } else {
        break;
      }
      OneMore(s, n, base);
      OverflowCheck(x, digit, base);
      ghost var before := ValueOf(s[..n], base);
      if x > (TWO_64 - 1 - digit) / base {
        overflow := true;
      } else {
        x := x * base + digit;
      }
      if overflow { Larger(before, digit, base); }
      n := n + 1;
    }
    RunIs(s, base, n);
    if n == 0 { return n, Invalid, 0; }
    if overflow { return n, Range, 0; }
    return n, Fine, x;
  }

  lemma OneMore(s: string, n: nat, base: nat)
    requires 2 <= base <= 36 && n < |s| && AllDigits(s[..n], base) && DigitOf(s[n], base).Some?
    ensures AllDigits(s[..n + 1], base)
    ensures ValueOf(s[..n + 1], base) == ValueOf(s[..n], base) * base + DigitOf(s[n], base).value
  {
    assert s[..n + 1] == s[..n] + [s[n]];
    assert s[..n + 1][..n] == s[..n];
  }

  /** The division in the check decides exactly whether the next value fits into 64 bits. */
  lemma OverflowCheck(x: nat, digit: nat, base: nat)
    requires 2 <= base <= 36 && digit < base
    ensures x > (TWO_64 - 1 - digit) / base <==> x * base + digit >= TWO_64
  {
    var t := TWO_64 - 1 - digit;
    DivisionTest(t, base, t / base, t % base, x);
  }

  lemma Larger(v: nat, digit: nat, base: nat)
    requires base >= 2
    ensures v * base + digit >= v
  {
  }

  // ---- Writing ----

  function DigitChar(d: nat, lower: bool): (c: char)
    requires d < 16
    ensures forall base: nat :: d < base && 2 <= base <= 16 ==> DigitOf(c, base) == Some(d)
  {
    if d < 10 then ('0' as int + d) as char
    else if lower then ('a' as int + d - 10) as char
    else ('A' as int + d - 10) as char
  }

  /** The plain digits of `val`, none for zero. */
  function DigitsOf(val: nat, base: nat, lower: bool): string
    requires 2 <= base <= 16
    decreases val
  {
    if val == 0 then ""
    else
      Shrinks(val, base);
      DigitsOf(val / base, base, lower) + [DigitChar(val % base, lower)]
  }

  lemma Shrinks(val: nat, base: nat)
    requires 2 <= base && val > 0
    ensures val / base < val && val == val / base * base + val % base && 0 <= val % base < base
  {
  }

  /** At least one digit. */
  function Plain(val: nat, base: nat, lower: bool): string
    requires 2 <= base <= 16
  {
    DigitsOf(val / base, base, lower) + [DigitChar(val % base, lower)]
  }

  function Separator(base: nat): char { if base == 10 then ',' else '\'' }

  function GroupSize(base: nat): nat { if base == 10 then 3 else 4 }

  /** What is still to be written to the left, with `k` digits since the last separator. */
  function Left(val: nat, base: nat, lower: bool, thousands: bool, k: nat): string
    requires 2 <= base <= 16
    decreases val, if k == GroupSize(base) then 1 else 0
  {
    if val == 0 then ""
    else if thousands && k == GroupSize(base) then Left(val, base, lower, thousands, 0) + [Separator(base)]
    else
      Shrinks(val, base);
      Left(val / base, base, lower, thousands, k + 1) + [DigitChar(val % base, lower)]
  }

  function Printed(val: nat, base: nat, lower: bool, thousands: bool): string
    requires 2 <= base <= 16
  {
    Left(val / base, base, lower, thousands, 1) + [DigitChar(val % base, lower)]
  }

  function PowerOf(base: nat, n: nat): nat {
    if n == 0 then 1 else base * PowerOf(base, n - 1)
  }

  /** A number below base^n, written with separators, takes at most a third more than n characters. */
  lemma {:induction false} LeftLength(val: nat, base: nat, lower: bool, thousands: bool, k: nat, n: nat)
    requires 2 <= base <= 16 && val < PowerOf(base, n)
    ensures 3 * |Left(val, base, lower, thousands, k)| <= 4 * n + k
    decreases val, if k == GroupSize(base) then 1 else 0
  {
    if val != 0 {
      if thousands && k == GroupSize(base) {
        LeftLength(val, base, lower, thousands, 0, n);
      } else {
        Shrinks(val, base);
        SmallerPower(val, base, n);
        LeftLength(val / base, base, lower, thousands, k + 1, n - 1);
      }
    }
  }

  lemma SmallerPower(val: nat, base: nat, n: nat)
    requires base >= 2 && 0 < val < PowerOf(base, n)
    ensures n > 0 && 0 <= val / base < PowerOf(base, n - 1)
  {
    var q, p := val / base, PowerOf(base, n - 1);
    assert val == q * base + val % base;
    assert q >= p ==> (q - p) * base >= 0;
    assert (q - p) * base == q * base - base * p;
  }

  /** `print_number`, which never runs out of its buffer. */
  method PrintNumber(buf: array<char>, val: nat, base: int, thousands: bool) returns (pos: nat)
    requires buf.Length == 32 && val < TWO_64 && (base == 10 || base == 16 || base == -16)
    modifies buf
    ensures pos < 31 && buf[31] == '\0'
    ensures buf[pos..31] == Printed(val, if base < 0 then -base else base, base < 0, thousands)
  {
    hide Left, DigitChar;
    var lower := base < 0;
    var b: nat := if base < 0 then -base else base;
    ghost var all := Printed(val, b, lower, thousands);
    PrintedLength(val, b, lower, thousands);
    pos := NUMBUFSIZ - 1;
    buf[pos] := '\0';
    var sep: int := if thousands then pos - GroupSize(b) else -1;
    var left: nat := val;
    pos := pos - 1;
    buf[pos] := DigitChar(left % b, lower);
    Shrink(left, b);
    left := left / b;
    ghost var k: nat := 1;
    assert buf[pos..NUMBUFSIZ - 1] == [DigitChar(val % b, lower)];
    while left != 0 && pos != 0
      invariant pos < NUMBUFSIZ - 1 && buf[NUMBUFSIZ - 1] == '\0'
      invariant all == Left(left, b, lower, thousands, k) + buf[pos..NUMBUFSIZ - 1]
      invariant thousands ==> k <= GroupSize(b) && sep == pos - (GroupSize(b) - k)
      invariant !thousands ==> sep == -1
      decreases left, if thousands && k == GroupSize(b) then 1 else 0
    {
      ghost var tail := buf[pos..NUMBUFSIZ - 1];
      LeftStep(left, b, lower, thousands, k, tail);
      if pos == sep {
        pos := pos - 1;
        buf[pos] := Separator(b);
        sep := pos - GroupSize(b);
        k := 0;
      } else {
        pos := pos - 1;
        buf[pos] := DigitChar(left % b, lower);
        left := left / b;
        k := k + 1;
      }
      assert buf[pos..NUMBUFSIZ - 1] == [buf[pos]] + tail;
    }
    LeftDone(left, b, lower, thousands, k);
  }

  /** One round of the loop moves one character from what is left to the buffer. */
  lemma LeftStep(val: nat, base: nat, lower: bool, thousands: bool, k: nat, tail: string)
    requires 2 <= base <= 16 && val > 0
    ensures thousands && k == GroupSize(base) ==>
              Left(val, base, lower, thousands, k) + tail == Left(val, base, lower, thousands, 0) + ([Separator(base)] + tail)
    ensures 0 <= val / base < val && 0 <= val % base < base
    ensures !(thousands && k == GroupSize(base)) ==>
              Left(val, base, lower, thousands, k) + tail
              == Left(val / base, base, lower, thousands, k + 1) + ([DigitChar(val % base, lower)] + tail)
  {
    Shrinks(val, base);
    hide DigitChar;
  }

  lemma LeftDone(val: nat, base: nat, lower: bool, thousands: bool, k: nat)
    requires 2 <= base <= 16
    ensures val == 0 ==> Left(val, base, lower, thousands, k) == ""
    ensures val > 0 ==> Left(val, base, lower, thousands, k) != ""
  {
  }

  lemma Shrink(val: nat, base: nat)
    requires base >= 2
    ensures 0 <= val / base && 0 <= val % base < base
  {
  }

  lemma PrintedLength(val: nat, base: nat, lower: bool, thousands: bool)
    requires val < TWO_64 && (base == 10 || base == 16)
    ensures |Printed(val, base, lower, thousands)| < NUMBUFSIZ - 1
  {
    LargePower(base);
    LeftLength(val / base, base, lower, thousands, 1, 20);
  }

  lemma LargePower(base: nat)
    requires base == 10 || base == 16
    ensures PowerOf(base, 20) >= TWO_64
  {
    var p4 := PowerOf(base, 4);
    assert p4 == base * base * base * base;
    PowerSplit(base, 4, 4);
    PowerSplit(base, 8, 8);
    PowerSplit(base, 16, 4);
  }

  lemma {:induction false} PowerSplit(base: nat, m: nat, n: nat)
    ensures PowerOf(base, m + n) == PowerOf(base, m) * PowerOf(base, n)
    decreases m
  {
    if m > 0 {
      PowerSplit(base, m - 1, n);
      ProductAssociates(base, PowerOf(base, m - 1), PowerOf(base, n));
      assert PowerOf(base, m + n) == base * PowerOf(base, m - 1 + n);
      assert PowerOf(base, m) == base * PowerOf(base, m - 1);
    }
  }

  lemma ProductAssociates(a: int, b: int, c: int)
    ensures a * (b * c) == (a * b) * c
  {
  }

  // ---- What was written is read back ----

  function Stripped(s: string, base: nat): string
    decreases |s|
  {
    if s == "" then ""
    else Stripped(s[..|s| - 1], base) + if s[|s| - 1] == (if base == 10 then ',' else '\'') then "" else [s[|s| - 1]]
  }

  /** Without its separators the printed number is the plain one. */
  lemma {:induction false} LeftStripped(val: nat, base: nat, lower: bool, thousands: bool, k: nat)
    requires 2 <= base <= 16
    ensures Stripped(Left(val, base, lower, thousands, k), base) == DigitsOf(val, base, lower)
    decreases val, if k == GroupSize(base) then 1 else 0
  {
    if val != 0 {
      var s := Left(val, base, lower, thousands, k);
      if thousands && k == GroupSize(base) {
        LeftStripped(val, base, lower, thousands, 0);
        assert s[..|s| - 1] == Left(val, base, lower, thousands, 0);
      } else {
        Shrinks(val, base);
        LeftStripped(val / base, base, lower, thousands, k + 1);
        NotSeparator(val % base, base, lower);
        assert s[..|s| - 1] == Left(val / base, base, lower, thousands, k + 1);
      }
    }
  }

  lemma NotSeparator(d: nat, base: nat, lower: bool)
    requires d < base <= 16
    ensures DigitChar(d, lower) != Separator(base)
  {
  }

  /** Whether character `n` from the end, counted from zero, is a separator. */
  predicate SeparatorAt(base: nat, n: nat) {
    if base == 10 then n % 4 == 3 else n % 5 == 4
  }

  lemma SeparatorNext(base: nat, k: nat, j: nat)
    requires k <= GroupSize(base)
    ensures SeparatorAt(base, k) <==> k == GroupSize(base)
    ensures k == GroupSize(base) && j > 0 ==> (SeparatorAt(base, k + j) <==> SeparatorAt(base, j - 1))
  {
  }

  /** The last character of what is still to be written, and what comes before it. */
  lemma LastOfLeft(val: nat, base: nat, lower: bool, k: nat) returns (c: char)
    requires 2 <= base <= 16 && k <= GroupSize(base) && val > 0
    ensures k == GroupSize(base) ==>
              Left(val, base, lower, true, k) == Left(val, base, lower, true, 0) + [Separator(base)]
    ensures 0 <= val / base < val
    ensures k < GroupSize(base) ==>
              c != Separator(base) && Left(val, base, lower, true, k) == Left(val / base, base, lower, true, k + 1) + [c]
  {
    hide DigitChar;
    c := DigitChar(val % base, lower);
    Shrinks(val, base);
    NotSeparator(val % base, base, lower);
  }

  lemma {:induction false} LeftPlaces(val: nat, base: nat, lower: bool, k: nat, j: nat)
    requires 2 <= base <= 16 && k <= GroupSize(base) && j < |Left(val, base, lower, true, k)|
    ensures var s := Left(val, base, lower, true, k);
            && (s[|s| - 1 - j] == Separator(base) <==> SeparatorAt(base, k + j))
            && s[0] != Separator(base)
    decreases val, if k == GroupSize(base) then 1 else 0
  {
    hide Left, SeparatorAt, Separator;
    LeftDone(val, base, lower, true, k);
    var c := LastOfLeft(val, base, lower, k);
    SeparatorNext(base, k, j);
    if k == GroupSize(base) {
      LeftDone(val, base, lower, true, 0);
      if j > 0 { LeftPlaces(val, base, lower, 0, j - 1); }
      LeftPlaces(val, base, lower, 0, 0);
    } else {
      if j > 0 { LeftPlaces(val / base, base, lower, k + 1, j - 1); }
      if Left(val / base, base, lower, true, k + 1) != "" { LeftPlaces(val / base, base, lower, k + 1, 0); }
    }
  }

  /** Separators stand between full groups counted from the end, and nowhere else; none stands in front. */
  lemma SeparatorPlaces(val: nat, base: nat, lower: bool, j: nat)
    requires 2 <= base <= 16 && j < |Printed(val, base, lower, true)|
    ensures var s := Printed(val, base, lower, true);
            var separator := if base == 10 then ',' else '\'';
            (s[|s| - 1 - j] == separator <==> SeparatorAt(base, j)) && s[0] != separator
  {
    hide Left, DigitChar;
    Shrink(val, base);
    NotSeparator(val % base, base, lower);
    var t := Left(val / base, base, lower, true, 1);
    if j > 0 { LeftPlaces(val / base, base, lower, 1, j - 1); }
    if t != "" { LeftPlaces(val / base, base, lower, 1, 0); }
  }

  // ---- Each character by its place ----

  /** The characters that the two cases are written with. */
  function DigitTable(lower: bool): string { if lower then "0123456789abcdef" else "0123456789ABCDEF" }

  /** How many of `j` characters from the end are digits, if `k` digits stand to the right of them. */
  function DigitsIn(base: nat, thousands: bool, k: nat, j: nat): int {
    if !thousands then j else if base == 10 then j - (k + j) / 4 else j - (k + j) / 5
  }

  /** The digit of `val` for the power `i` of the base. */
  function DigitAt(val: nat, base: nat, i: nat): (d: nat)
    requires 2 <= base
    ensures d < base
  {
    PowerPositive(base, i);
    Shrink(val / PowerOf(base, i), base);
    val / PowerOf(base, i) % base
  }

  /** Character `j` from the end: a separator, or the digit of its power of the base. */
  function CharacterAt(val: nat, base: nat, lower: bool, thousands: bool, k: nat, j: nat): Option<char>
    requires 2 <= base <= 16
  {
    var i := DigitsIn(base, thousands, k, j);
    if thousands && SeparatorAt(base, k + j) then Some(if base == 10 then ',' else '\'')
    else if i < 0 then None
    else Some(DigitTable(lower)[DigitAt(val, base, i)])
  }

  lemma CharacterNext(val: nat, base: nat, lower: bool, thousands: bool, k: nat, j: nat)
    requires 2 <= base <= 16 && j > 0 && !(thousands && k >= GroupSize(base))
    ensures 0 <= val / base
    ensures CharacterAt(val, base, lower, thousands, k, j) == CharacterAt(val / base, base, lower, thousands, k + 1, j - 1)
            || CharacterAt(val / base, base, lower, thousands, k + 1, j - 1) == None
  {
    hide DigitAt, DigitTable;
    Shrink(val, base);
    var i := DigitsIn(base, thousands, k + 1, j - 1);
    assert DigitsIn(base, thousands, k, j) == i + 1;
    if i >= 0 { DigitNext(val, base, i); }
  }

  lemma DigitNext(val: nat, base: nat, i: nat)
    requires 2 <= base
    ensures 0 <= val / base && DigitAt(val, base, i + 1) == DigitAt(val / base, base, i)
  {
    PowerPositive(base, i);
    DivideTwice(val, base, PowerOf(base, i));
    assert PowerOf(base, i + 1) == base * PowerOf(base, i);
  }

  lemma {:induction false} PowerPositive(base: nat, n: nat)
    requires base > 0
    ensures PowerOf(base, n) > 0
  {
    if n > 0 { PowerPositive(base, n - 1); }
  }

  lemma DivideTwice(n: nat, b: nat, p: nat)
    requires b > 0 && p > 0
    ensures b * p > 0 && 0 <= n / b && n / b / p == n / (b * p)
  {
    var q: nat, r: nat := n / b, n % b;
    var q': nat, r': nat := q / p, q % p;
    Euclid(n, b);
    Euclid(q, p);
    RemainderFits(b, p, r, r');
    Regroup(n, b, p, q, q', r', r);
    Quotient(n, b * p, q', r' * b + r);
  }

  /** Two remainders together are one of the product. */
  lemma RemainderFits(b: nat, p: nat, r: nat, r': nat)
    requires r < b && r' < p
    ensures 0 <= r' * b + r < b * p
  {
    InOrder(b, r' + 1, p);
  }

  lemma Regroup(n: int, b: int, p: int, q: int, q': int, r': int, r: int)
    requires n == b * q + r && q == p * q' + r'
    ensures n == q' * (b * p) + (r' * b + r)
  {
    assert b * q == b * (p * q') + b * r';
    assert b * (p * q') == (b * p) * q';
  }

  lemma {:induction false} LeftCharacters(val: nat, base: nat, lower: bool, thousands: bool, k: nat, j: nat)
    requires 2 <= base <= 16 && (thousands ==> k <= GroupSize(base)) && j < |Left(val, base, lower, thousands, k)|
    ensures var s := Left(val, base, lower, thousands, k);
            Some(s[|s| - 1 - j]) == CharacterAt(val, base, lower, thousands, k, j)
    decreases val, if k == GroupSize(base) then 1 else 0
  {
    hide Left, CharacterAt, DigitChar, Separator, DigitTable;
    LeftLast(val, base, lower, thousands, k);
    LastCharacter(val, base, lower, thousands, k);
    if thousands && k == GroupSize(base) {
      if j > 0 {
        LeftCharacters(val, base, lower, thousands, 0, j - 1);
        AfterSeparator(val, base, lower, k, j);
      }
    } else {
      if j > 0 {
        LeftCharacters(val / base, base, lower, thousands, k + 1, j - 1);
        CharacterNext(val, base, lower, thousands, k, j);
      }
    }
  }

  /** The last character still to be written, and what comes before it. */
  lemma LeftLast(val: nat, base: nat, lower: bool, thousands: bool, k: nat)
    requires 2 <= base <= 16
    ensures val == 0 ==> Left(val, base, lower, thousands, k) == ""
    ensures 0 <= val / base && (val > 0 ==> val / base < val) && 0 <= val % base < base
    ensures val > 0 ==>
              Left(val, base, lower, thousands, k) ==
              if thousands && k == GroupSize(base) then Left(val, base, lower, thousands, 0) + [Separator(base)]
              else Left(val / base, base, lower, thousands, k + 1) + [DigitChar(val % base, lower)]
  {
    hide DigitChar, Separator, GroupSize;
    Shrink(val, base);
    if val > 0 { Shrinks(val, base); }
  }

  lemma LastCharacter(val: nat, base: nat, lower: bool, thousands: bool, k: nat)
    requires 2 <= base <= 16 && (thousands ==> k <= GroupSize(base))
    ensures 0 <= val % base < base
    ensures CharacterAt(val, base, lower, thousands, k, 0)
         == Some(if thousands && k == GroupSize(base) then Separator(base) else DigitChar(val % base, lower))
  {
    Shrink(val, base);
    assert PowerOf(base, 0) == 1;
  }

  lemma AfterSeparator(val: nat, base: nat, lower: bool, k: nat, j: nat)
    requires 2 <= base <= 16 && k == GroupSize(base) && j > 0
    ensures CharacterAt(val, base, lower, true, k, j) == CharacterAt(val, base, lower, true, 0, j - 1)
  {
    assert DigitsIn(base, true, k, j) == DigitsIn(base, true, 0, j - 1);
  }

  /** The written number has no digit too many and none too few. */
  lemma {:induction false} LeftSize(val: nat, base: nat, lower: bool, thousands: bool, k: nat)
    requires 2 <= base <= 16 && (thousands ==> k <= GroupSize(base)) && val > 0
    ensures var n := DigitsIn(base, thousands, k, |Left(val, base, lower, thousands, k)|);
            n >= 1 && PowerOf(base, n - 1) <= val < PowerOf(base, n)
    decreases val, if k == GroupSize(base) then 1 else 0
  {
    hide Left, DigitChar, Separator, PowerOf, DigitsIn, GroupSize;
    LeftLast(val, base, lower, thousands, k);
    DigitsNext(base, thousands, k, |Left(val, base, lower, thousands, k)|);
    var n := |Left(val, base, lower, thousands, k)|;
    if thousands && k == GroupSize(base) {
      LeftSize(val, base, lower, thousands, 0);
    } else {
      LeftLast(val / base, base, lower, thousands, k + 1);
      if val / base > 0 {
        LeftSize(val / base, base, lower, thousands, k + 1);
        LargerPower(val, base, DigitsIn(base, thousands, k + 1, n - 1));
      } else {
        SmallestPowers(val, base);
      }
    }
  }

  lemma DigitsNext(base: nat, thousands: bool, k: nat, n: nat)
    ensures n > 0 && thousands && k == GroupSize(base) ==> DigitsIn(base, true, k, n) == DigitsIn(base, true, 0, n - 1)
    ensures n > 0 && !(thousands && k == GroupSize(base)) ==>
              DigitsIn(base, thousands, k, n) == DigitsIn(base, thousands, k + 1, n - 1) + 1
    ensures k < GroupSize(base) <==> k + 1 <= GroupSize(base)
    ensures !thousands || k < GroupSize(base) ==> DigitsIn(base, thousands, k + 1, 0) == 0
    ensures 0 <= GroupSize(base)
  {
  }

  lemma SmallestPowers(val: nat, base: nat)
    requires base >= 2 && val / base == 0
    ensures PowerOf(base, 0) == 1 && PowerOf(base, 1) == base && val < base
  {
    Euclid(val, base);
  }

  lemma LargerPower(val: nat, base: nat, n: nat)
    requires base >= 2 && n >= 1 && 0 <= val / base && PowerOf(base, n - 1) <= val / base < PowerOf(base, n)
    ensures PowerOf(base, n) <= val < PowerOf(base, n + 1)
  {
    assert PowerOf(base, n) == base * PowerOf(base, n - 1) && PowerOf(base, n + 1) == base * PowerOf(base, n);
    Between(PowerOf(base, n - 1), val, base, PowerOf(base, n));
  }

  lemma Between(lo: nat, val: nat, base: nat, hi: nat)
    requires base > 0 && lo <= val / base < hi
    ensures base * lo <= val < base * hi
  {
    Euclid(val, base);
    InOrder(base, lo, val / base);
    InOrder(base, val / base + 1, hi);
  }

  lemma Euclid(val: nat, base: nat)
    requires base > 0
    ensures 0 <= val / base && 0 <= val % base < base && val == base * (val / base) + val % base
    ensures base * (val / base) <= val < base * (val / base + 1)
  {
  }

  lemma InOrder(c: nat, a: int, b: int)
    requires a <= b
    ensures c * a <= c * b
  {
  }

  /** The printed number, character by character: the one at `j` from the end is a separator, or the digit of
      `val` for the power of the base that its place stands for; there are just enough digits. */
  lemma PrintedCharacters(val: nat, base: nat, lower: bool, thousands: bool, j: nat)
    requires (base == 10 || base == 16) && j < |Printed(val, base, lower, thousands)|
    ensures var s := Printed(val, base, lower, thousands);
            var group := if base == 10 then 4 else 5;
            var n := if thousands then |s| - |s| / group else |s|;
            && (s[|s| - 1 - j] ==
                if thousands && j % group == group - 1 then if base == 10 then ',' else '\''
                else (if lower then "0123456789abcdef" else "0123456789ABCDEF")
                     [DigitAt(val, base, if thousands then j - j / group else j)])
            && n >= 1 && val < PowerOf(base, n) && (n == 1 || PowerOf(base, n - 1) <= val)
  {
    hide Left, DigitAt, DigitChar, Separator;
    Shrink(val, base);
    if j == 0 {
      LastCharacter(val, base, lower, thousands, 0);
    } else {
      LeftCharacters(val / base, base, lower, thousands, 1, j - 1);
      CharacterNext(val, base, lower, thousands, 0, j);
    }
    PrintedSize(val, base, lower, thousands);
  }

  lemma PrintedSize(val: nat, base: nat, lower: bool, thousands: bool)
    requires 2 <= base <= 16
    ensures var n := DigitsIn(base, thousands, 0, |Printed(val, base, lower, thousands)|);
            n >= 1 && val < PowerOf(base, n) && (n == 1 || PowerOf(base, n - 1) <= val)
  {
    hide Left, DigitChar, Separator, PowerOf;
    Shrink(val, base);
    if val / base > 0 {
      LeftSize(val / base, base, lower, thousands, 1);
      LargerPower(val, base, DigitsIn(base, thousands, 1, |Left(val / base, base, lower, thousands, 1)|));
    } else {
      LeftLast(val / base, base, lower, thousands, 1);
      SmallestPowers(val, base);
    }
  }

  lemma PrintedStripped(val: nat, base: nat, lower: bool, thousands: bool)
    requires 2 <= base <= 16
    ensures Stripped(Printed(val, base, lower, thousands), base) == Plain(val, base, lower)
    ensures Printed(val, base, lower, false) == Plain(val, base, lower)
  {
    var s := Printed(val, base, lower, thousands);
    Shrink(val, base);
    LeftStripped(val / base, base, lower, thousands, 1);
    NotSeparator(val % base, base, lower);
    assert s[..|s| - 1] == Left(val / base, base, lower, thousands, 1);
    LeftPlain(val / base, base, lower, 1);
  }

  lemma {:induction false} LeftPlain(val: nat, base: nat, lower: bool, k: nat)
    requires 2 <= base <= 16
    ensures Left(val, base, lower, false, k) == DigitsOf(val, base, lower)
    decreases val
  {
    if val != 0 {
      Shrinks(val, base);
      LeftPlain(val / base, base, lower, k + 1);
    }
  }

  lemma {:induction false} DigitsValue(val: nat, base: nat, lower: bool)
    requires 2 <= base <= 16
    ensures AllDigits(DigitsOf(val, base, lower), base) && ValueOf(DigitsOf(val, base, lower), base) == val
    decreases val
  {
    if val != 0 {
      Shrinks(val, base);
      DigitsValue(val / base, base, lower);
      var s := DigitsOf(val, base, lower);
      assert s[..|s| - 1] == DigitsOf(val / base, base, lower);
    }
  }

  lemma PlainValue(val: nat, base: nat, lower: bool)
    requires 2 <= base <= 16
    ensures AllDigits(Plain(val, base, lower), base) && ValueOf(Plain(val, base, lower), base) == val
  {
    Shrink(val, base);
    var q, r := val / base, val % base;
    assert val == q * base + r;
    DigitsValue(q, base, lower);
    hide DigitsOf, DigitChar;
    var t, c := DigitsOf(q, base, lower), DigitChar(r, lower);
    assert (t + [c])[..|t + [c]| - 1] == t;
    assert DigitOf(c, base) == Some(r);
  }

  /** Printing a 64-bit number without separators and reading the text gives it back, all of it. */
  method PrintThenRead(val: nat, base: int) returns (n: nat, ec: Error, value: nat)
    requires val < TWO_64 && (base == 10 || base == 16 || base == -16)
    ensures ec == Fine && value == val
    ensures n == |Printed(val, if base < 0 then -base else base, base < 0, false)|
  {
    var b: nat := if base < 0 then -base else base;
    var buf := new char[NUMBUFSIZ];
    var pos := PrintNumber(buf, val, base, false);
    PrintedStripped(val, b, base < 0, false);
    PlainValue(val, b, base < 0);
    var text := buf[pos..NUMBUFSIZ - 1];
    n, ec, value := FromChars(text, b);
    assert text[..|text|] == text;
    RunIs(text, b, |text|);
    assert text[..n] == text;
  }
}
