/** Values that may be absent, results that may be errors, and a few functions on sequences. */
module Basics {
  datatype Option<+T> = None | Some(value: T)

  datatype Result<+T, +E> = Ok(value: T) | Err(error: E)

  function Reverse<T>(s: seq<T>): (r: seq<T>)
    ensures |r| == |s|
    ensures forall i :: 0 <= i < |s| ==> r[i] == s[|s| - 1 - i]
  {
    seq(|s|, i requires 0 <= i < |s| => s[|s| - 1 - i])
  }

  function Min(a: int, b: int): int {
    if a < b then a else b
  }

  /** Where start and stop land once negative ones count from the end and both are brought into range. */
  function NormalizeRange(length: int, start: int, stop: int): (int, int) {
    var a := if start < 0 then length + start else start;
    var b := if stop < 0 then length + stop else stop;
    (if a < 0 then 0 else a, if b >= length then length - 1 else b)
  }

  /** The elements from start to stop, inclusive; negative positions count from the end. */
  function Slice<T>(s: seq<T>, start: int, stop: int): seq<T> {
    var (a, b) := NormalizeRange(|s|, start, stop);
    if a > b then [] else s[a..b + 1]
  }

  function Position(length: int, idx: int): int {
    if idx < 0 then length + idx else idx
  }

  /** Position i of n is neither before start nor behind stop: i is compared with them, i - n where one is negative. */
  predicate Within(i: int, n: int, start: int, stop: int) {
    (if start < 0 then start <= i - n else start <= i) && (if stop < 0 then i - n <= stop else i <= stop)
  }

  /** A slice is the part of a sequence whose positions are within its bounds. */
  lemma SliceSelects<T>(s: seq<T>, start: int, stop: int) returns (lo: nat, hi: nat)
    ensures lo <= hi <= |s| && Slice(s, start, stop) == s[lo..hi]
    ensures forall i :: 0 <= i < |s| ==> (lo <= i < hi <==> Within(i, |s|, start, stop))
  {
    var (a, b) := NormalizeRange(|s|, start, stop);
    lo, hi := if a > b then 0 else a, if a > b then 0 else b + 1;
  }
}

/**
  Byte strings. A Go string is a sequence of bytes; here every `char` stands for one byte
  and nothing depends on an upper bound, so what is proved holds of byte strings.
 */
module Strings {
  import opened Basics

  /** Go's `<` on strings: byte-wise lexicographic order. */
  predicate Less(a: string, b: string) {
    b != [] && (a == [] || a[0] < b[0] || (a[0] == b[0] && Less(a[1..], b[1..])))
  }

  lemma {:induction false} LessIsIrreflexive(a: string)
    ensures !Less(a, a)
  {
    if a != [] {
      LessIsIrreflexive(a[1..]);
    }
  }

  lemma {:induction false} LessIsTransitive(a: string, b: string, c: string)
    requires Less(a, b) && Less(b, c)
    ensures Less(a, c)
  {
    if a != [] && a[0] == b[0] && b[0] == c[0] {
      LessIsTransitive(a[1..], b[1..], c[1..]);
    }
  }

  lemma {:induction false} LessIsTotal(a: string, b: string)
    ensures Less(a, b) || a == b || Less(b, a)
  {
    if a != [] && b != [] && a[0] == b[0] {
      LessIsTotal(a[1..], b[1..]);
      assert a == [a[0]] + a[1..] && b == [b[0]] + b[1..];
    }
  }

  /** The strings agree up to k, where the one ends and the other goes on or has the greater byte. */
  predicate PartAt(a: string, b: string, k: nat) {
    k <= |a| && k <= |b| && a[..k] == b[..k] && if k == |a| then k < |b| else k < |b| && a[k] < b[k]
  }

  lemma {:induction false} LessPart(a: string, b: string) returns (k: nat)
    requires Less(a, b)
    ensures PartAt(a, b, k)
  {
    if a == [] || a[0] < b[0] {
      k := 0;
    } else {
      k := LessPart(a[1..], b[1..]);
      assert a[..k + 1] == [a[0]] + a[1..][..k] && b[..k + 1] == [b[0]] + b[1..][..k];
      k := k + 1;
    }
  }

  lemma {:induction false} PartIsLess(a: string, b: string, k: nat)
    requires PartAt(a, b, k)
    ensures Less(a, b)
  {
    if k > 0 {
      assert a[0] == a[..k][0] == b[..k][0] == b[0];
      assert a[1..][..k - 1] == a[..k][1..] && b[1..][..k - 1] == b[..k][1..];
      PartIsLess(a[1..], b[1..], k - 1);
    }
  }

  /** One string is less than another just when there is such a place. */
  lemma LessIff(a: string, b: string)
    ensures Less(a, b) <==> exists k: nat :: PartAt(a, b, k)
  {
    if Less(a, b) {
      var k := LessPart(a, b);
    } else if k: nat :| PartAt(a, b, k) {
      PartIsLess(a, b, k);
    }
  }

  /** strings.ToUpper on ASCII letters. */
  function Upper(c: char): char {
    if 'a' <= c <= 'z' then c - 'a' + 'A' else c
  }

  function ToUpper(s: string): (r: string)
    ensures |r| == |s|
    ensures forall i :: 0 <= i < |s| ==> r[i] == Upper(s[i])
  {
    seq(|s|, i requires 0 <= i < |s| => Upper(s[i]))
  }

  function Lower(c: char): char {
    if 'A' <= c <= 'Z' then c - 'A' + 'a' else c
  }

  function ToLower(s: string): (r: string)
    ensures |r| == |s|
    ensures forall i :: 0 <= i < |s| ==> r[i] == Lower(s[i])
  {
    seq(|s|, i requires 0 <= i < |s| => Lower(s[i]))
  }

  predicate IsDigit(c: char) {
    '0' <= c <= '9'
  }

  function DigitValue(c: char): (d: nat)
    requires IsDigit(c)
    ensures d < 10
  {
    (c - '0') as int
  }

  function Digit(d: nat): (c: char)
    requires d < 10
    ensures IsDigit(c) && DigitValue(c) == d
  {
    '0' + d as char
  }

  predicate AllDigits(s: string) {
    forall i :: 0 <= i < |s| ==> IsDigit(s[i])
  }

  /** The number a digit string denotes; the empty string denotes 0. */
  function Natural(s: string): nat
    requires AllDigits(s)
  {
    if s == [] then 0 else 10 * Natural(s[..|s| - 1]) + DigitValue(s[|s| - 1])
  }

  const TWO_63: int := 0x8000_0000_0000_0000

  /** What an int64 can hold. */
  predicate IsInt64(n: int) {
    -TWO_63 <= n < TWO_63
  }

  /** strconv.ParseInt(s, 10, 64); Atoi accepts the same strings on a 64-bit machine. */
  function ParseInt(s: string): (r: Option<int>)
    ensures r.Some? ==> IsInt64(r.value)
  {
    if s == [] then None
    else
      var signed := s[0] == '+' || s[0] == '-';
      var digits := if signed then s[1..] else s;
      if digits == [] || !AllDigits(digits) then None
      else
        var n := if s[0] == '-' then -(Natural(digits) as int) else Natural(digits);
        if IsInt64(n) then Some(n) else None
  }

  /** The decimal digits of n, as %d prints them. */
  function FormatNat(n: nat): (s: string)
    ensures s != [] && AllDigits(s) && Natural(s) == n
  {
    if n < 10 then [Digit(n)]
    else
      var front := FormatNat(n / 10);
      var s := front + [Digit(n % 10)];
      assert s[..|s| - 1] == front;
      s
  }

  function FormatInt(n: int): (s: string)
    ensures s != [] && '\n' !in s && '\r' !in s
  {
    if n < 0 then ['-'] + FormatNat(-n) else FormatNat(n)
  }

  /** A letter in lower case becomes the one as far from 'A' as it is from 'a', and no other character changes. */
  lemma UpperMeans(s: string, i: nat)
    requires i < |s|
    ensures ToUpper(s)[i] as int ==
            if 97 <= s[i] as int <= 122 then s[i] as int - 32 else s[i] as int
    ensures ToLower(s)[i] as int ==
            if 65 <= s[i] as int <= 90 then s[i] as int + 32 else s[i] as int
  {
  }

  /** One of 0 to 9. */
  predicate IsNumeral(c: char) {
    48 <= c as int <= 57
  }

  lemma DigitsJoin(s: string, c: char)
    requires AllDigits(s) && IsDigit(c)
    ensures AllDigits(s + [c]) && Natural(s + [c]) == 10 * Natural(s) + DigitValue(c)
  {
    assert (s + [c])[..|s|] == s;
  }

  lemma DigitsParse(s: string)
    requires s != [] && AllDigits(s)
    ensures ParseInt(s) == (if Natural(s) < TWO_63 then Some(Natural(s)) else None)
    ensures ParseInt(['+'] + s) == ParseInt(s)
    ensures ParseInt(['-'] + s) == (if Natural(s) <= TWO_63 then Some(-(Natural(s) as int)) else None)
  {
    assert IsDigit(s[0]);
    assert (['+'] + s)[1..] == s && (['-'] + s)[1..] == s;
  }

  lemma NumeralsParse(s: string)
    requires s != [] && forall i :: 0 <= i < |s| ==> IsNumeral(s[i])
    ensures AllDigits(s) && ParseInt("+" + s) == ParseInt(s)
    ensures ParseInt(s) == (if Natural(s) < TWO_63 then Some(Natural(s)) else None)
    ensures ParseInt(s).Some? ==> ParseInt("-" + s) == Some(-ParseInt(s).value)
  {
    DigitsParse(s);
  }

  lemma NumeralsJoin(s: string, c: char)
    requires IsNumeral(c) && AllDigits(s)
    ensures AllDigits([c]) && Natural([c]) == c as int - 48
    ensures AllDigits(s + [c]) && Natural(s + [c]) == 10 * Natural(s) + (c as int - 48)
  {
    assert [] + [c] == [c];
    DigitsJoin([], c);
    DigitsJoin(s, c);
  }

  /**
    How numbers are read: a numeral alone is its number, one more makes ten times as much and its number, a plus in
    front changes nothing and a minus the sign, and all is within 64 bits.
   */
  lemma ParseIntMeans(s: string, c: char)
    requires s != [] && IsNumeral(c) && forall i :: 0 <= i < |s| ==> IsNumeral(s[i])
    ensures ParseInt([c]) == Some(c as int - 48)
    ensures ParseInt("+" + s) == ParseInt(s) && (ParseInt(s).Some? ==> ParseInt("-" + s) == Some(-ParseInt(s).value))
    ensures ParseInt(s + [c]) ==
            if ParseInt(s).Some? && 10 * ParseInt(s).value + (c as int - 48) < 0x8000_0000_0000_0000
            then Some(10 * ParseInt(s).value + (c as int - 48)) else None
  {
    hide Natural, ParseInt, AllDigits;
    NumeralsParse(s);
    NumeralsJoin(s, c);
    NumeralsParse([c]);
    NumeralsParse(s + [c]);
  }

  /** Nothing else is read as a number. */
  lemma OnlyNumbersParse(s: string)
    requires ParseInt(s).Some?
    ensures var digits := if s != [] && (s[0] == '+' || s[0] == '-') then s[1..] else s;
            digits != [] && forall i :: 0 <= i < |digits| ==> IsNumeral(digits[i])
  {
  }

  /** No more digits than needed: with `ParseFormatted` that fixes what is printed. */
  lemma {:induction false} FormatIsShort(n: nat)
    ensures n > 0 ==> FormatNat(n)[0] != '0'
    ensures n == 0 ==> FormatNat(n) == "0"
    ensures FormatInt(n) == FormatNat(n) && (n > 0 ==> FormatInt(0 - n) == "-" + FormatNat(n))
  {
    if n >= 10 {
      FormatIsShort(n / 10);
    }
  }

  /** What fmt prints with %d, strconv parses back. */
  lemma ParseFormatted(n: int)
    ensures ParseInt(FormatInt(n)) == if IsInt64(n) then Some(n) else None
  {
    var s := FormatInt(n);
    if n < 0 {
      assert s[1..] == FormatNat(-n);
    } else {
      assert IsDigit(s[0]);
    }
  }

  /** The position of the first occurrence of c, if there is one. */
  function IndexOf(s: string, c: char): (r: Option<nat>)
    ensures r.Some? ==> r.value < |s| && s[r.value] == c && c !in s[..r.value]
    ensures r.None? ==> c !in s
  {
    if s == [] then None
    else if s[0] == c then Some(0)
    else
      match IndexOf(s[1..], c)
      case None => None
      case Some(i) =>
        assert s[..i + 1] == [s[0]] + s[1..][..i];
        Some(i + 1)
  }

  lemma IndexIsUnique(s: string, c: char, i: nat)
    requires i < |s| && s[i] == c && c !in s[..i]
    ensures IndexOf(s, c) == Some(i)
  {
    assert IndexOf(s, c).Some?;
  }
}
