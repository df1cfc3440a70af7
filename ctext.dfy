/**
  C text handling shared by the ATM and the bank: `int` as a 32-bit value, the
  `%s` and `%d` conversions of `scanf`, the `%d` conversion of `printf`, and the
  `strcspn(s, "\n")` newline trim.

  A model string is the content of a C string: the characters before its
  terminating NUL, one character per byte.
 */
module CText {

  datatype Option<+T> = None | Some(value: T)

  const MinInt32: int := -0x8000_0000
  const MaxInt32: int := 0x7fff_ffff
  /** C's `int`. */
  type Int32 = x: int | MinInt32 <= x <= MaxInt32

  const MinInt64: int := -0x8000_0000_0000_0000
  const MaxInt64: int := 0x7fff_ffff_ffff_ffff
  /** 2^64: `unsigned long` arithmetic is modulo this. */
  const Word64: int := 0x1_0000_0000_0000_0000

  /** The `int` a wider integer becomes when converted to `int` (two's complement truncation). */
  function Wrap32(x: int): (r: Int32)
    ensures (x - r) % 0x1_0000_0000 == 0
    ensures MinInt32 <= x <= MaxInt32 ==> r == x
  {
    var r := (x - MinInt32) % 0x1_0000_0000 + MinInt32;
    assert x - r == 0x1_0000_0000 * ((x - MinInt32) / 0x1_0000_0000);
    r
  }

  /** The C expression `a + b` on two `int`s, evaluated with two's complement
      wrap-around: the true sum of two `int`s is off by at most one turn of 2^32. */
  function AddWrap32(a: Int32, b: Int32): (r: Int32)
    ensures MinInt32 <= a + b <= MaxInt32 ==> r == a + b
  {
    if a + b > MaxInt32 then a + b - 0x1_0000_0000
    else if a + b < MinInt32 then a + b + 0x1_0000_0000
    else a + b
  }

  /** The sum is the truncation of the true sum to `int`. */
  lemma AddWrap32Wraps(a: Int32, b: Int32)
    ensures AddWrap32(a, b) == Wrap32(a + b)
  {
    var r := AddWrap32(a, b);
    assert (a + b - r) % 0x1_0000_0000 == 0;
    var w := Wrap32(a + b);
    assert (r - w) % 0x1_0000_0000 == 0 by {
      assert r - w == (a + b - w) - (a + b - r);
    }
  }

  /** For a non-negative `amount`, the test `balance + amount < balance` (evaluated with
      wrap-around) holds exactly when the true sum does not fit in an `int`. */
  lemma OverflowTest(balance: Int32, amount: Int32)
    requires amount >= 0
    ensures AddWrap32(balance, amount) < balance <==> balance + amount > MaxInt32
  {
    if balance + amount > MaxInt32 {
      assert AddWrap32(balance, amount) == balance + amount - 0x1_0000_0000;
    } else {
      assert AddWrap32(balance, amount) == balance + amount;
    }
  }

  /** The `long` that `strtol` returns for a numeral of value x: saturated at the bounds. */
  function Saturate64(x: int): (r: int)
    ensures MinInt64 <= r <= MaxInt64
    ensures MinInt64 <= x <= MaxInt64 ==> r == x
    ensures x < MinInt64 ==> r == MinInt64
    ensures x > MaxInt64 ==> r == MaxInt64
  {
    if x < MinInt64 then MinInt64 else if x > MaxInt64 then MaxInt64 else x
  }

  /** The value C's signed `char` holds for the byte that character c stands for. */
  function SignedChar(c: char): (v: int)
    ensures -128 <= v < 128
    ensures (v - c as int) % 256 == 0
  {
    var b := c as int % 256;
    if b < 128 then b else b - 256
  }

  /** `isspace` in the C locale: space, tab, newline, vertical tab, form feed, carriage return. */
  predicate IsSpace(c: char)
  {
    c == ' ' || '\t' <= c <= '\r'
  }

  predicate IsDigit(c: char)
  {
    '0' <= c <= '9'
  }

  predicate AllDigits(d: string)
  {
    forall k :: 0 <= k < |d| ==> IsDigit(d[k])
  }

  // ---------------------------------------------------------------------------
  // scanf

  /** Where a conversion starts reading after the white space at index i. */
  function SkipSpace(s: string, i: nat): (j: nat)
    requires i <= |s|
    ensures i <= j <= |s|
    ensures forall k :: i <= k < j ==> IsSpace(s[k])
    ensures j == |s| || !IsSpace(s[j])
    decreases |s| - i
  {
    if i < |s| && IsSpace(s[i]) then SkipSpace(s, i + 1) else i
  }

  /** The end of the run of non-white-space characters that starts at index i. */
  function RunEnd(s: string, i: nat): (e: nat)
    requires i <= |s|
    ensures i <= e <= |s|
    ensures forall k :: i <= k < e ==> !IsSpace(s[k])
    ensures e == |s| || IsSpace(s[e])
    decreases |s| - i
  {
    if i < |s| && !IsSpace(s[i]) then RunEnd(s, i + 1) else i
  }

  /** The end of the run of digits that starts at index i. */
  function DigitsEnd(s: string, i: nat): (e: nat)
    requires i <= |s|
    ensures i <= e <= |s|
    ensures forall k :: i <= k < e ==> IsDigit(s[k])
    ensures e == |s| || !IsDigit(s[e])
    decreases |s| - i
  {
    if i < |s| && IsDigit(s[i]) then DigitsEnd(s, i + 1) else i
  }

  /** The field w that a `%<width>s` conversion reads from s, starting at index i
      and ending at index e: white space, then one to `width` non-white-space
      characters, stopping at white space, at the end of s, or at the width.
      A width of 0 stands for a conversion written without a field width: C
      does not allow a width of 0, and `%s` reads a field of any length. */
  ghost predicate FieldAt(s: string, i: nat, w: string, e: nat, width: nat)
  {
    && i <= e <= |s|
    && 0 < |w| <= e - i
    && (width == 0 || |w| <= width)
    && s[e - |w|..e] == w
    && (forall k :: i <= k < e - |w| ==> IsSpace(s[k]))
    && (forall k :: 0 <= k < |w| ==> !IsSpace(w[k]))
    && (e == |s| || IsSpace(s[e]) || |w| == width)
  }

  /** The `%<width>s` conversion from index i of s: the field read and the index after it,
      or None when only white space is left (scanf's input failure). */
  function ScanField(s: string, i: nat, width: nat): (r: Option<(string, nat)>)
    requires i <= |s|
    ensures r.Some? ==> i < r.value.1 <= |s|
    ensures r.Some? ==> 0 < |r.value.0| && (width == 0 || |r.value.0| <= width)
  {
    var j := SkipSpace(s, i);
    if j == |s| then None
    else
      var run := RunEnd(s, j);
      var e := if width != 0 && run - j > width then j + width else run;
      Some((s[j..e], e))
  }

  /** What ScanField reads: None exactly when only white space is left from index i
      (scanf's input failure), otherwise the field that FieldAt describes. */
  lemma ScanFieldMeaning(s: string, i: nat, width: nat)
    requires i <= |s|
    ensures ScanField(s, i, width).None? <==> forall k :: i <= k < |s| ==> IsSpace(s[k])
    ensures ScanField(s, i, width).Some? ==>
              FieldAt(s, i, ScanField(s, i, width).value.0, ScanField(s, i, width).value.1, width)
  {
    var j := SkipSpace(s, i);
    if j < |s| {
      var run := RunEnd(s, j);
      var e := if width != 0 && run - j > width then j + width else run;
      assert s[j..e][0] == s[j];
    }
  }

  /** `sscanf(s, "%*s %<width>s", w)`: the second field of s, or None when s has fewer than two. */
  function SecondField(s: string, width: nat): (r: Option<string>)
    ensures r.Some? ==> 0 < |r.value| && (width == 0 || |r.value| <= width)
  {
    match ScanField(s, 0, 0)
    case None => None
    case Some((_, e)) =>
      match ScanField(s, e, width)
      case None => None
      case Some((w, _)) => Some(w)
  }

  /** The second field is a single word within the width. */
  lemma SecondFieldWord(s: string, width: nat)
    ensures var r := SecondField(s, width);
            r.Some? ==> 0 < |r.value| && (width == 0 || |r.value| <= width)
                        && forall k :: 0 <= k < |r.value| ==> !IsSpace(r.value[k])
  {
    ScanFieldMeaning(s, 0, 0);
    if ScanField(s, 0, 0).Some? {
      ScanFieldMeaning(s, ScanField(s, 0, 0).value.1, width);
    }
  }

  /** `sscanf(s, "%*s %d", &n)`: the integer after the first field of s, or None. */
  function IntAfterField(s: string): (r: Option<Int32>)
  {
    match ScanField(s, 0, 0)
    case None => None
    case Some((_, e)) =>
      match ScanInt(s, e)
      case None => None
      case Some((n, _)) => Some(n)
  }

  /** SkipSpace stops at the first non-white-space character. */
  lemma {:induction false} SkipSpaceTo(s: string, i: nat, j: nat)
    requires i <= j < |s|
    requires forall k :: i <= k < j ==> IsSpace(s[k])
    requires !IsSpace(s[j])
    ensures SkipSpace(s, i) == j
    decreases j - i
  {
    if i < j {
      SkipSpaceTo(s, i + 1, j);
    }
  }

  /** A run of non-white-space characters extends at least as far as any such stretch. */
  lemma {:induction false} RunEndBeyond(s: string, i: nat, e: nat)
    requires i <= e <= |s|
    requires forall k :: i <= k < e ==> !IsSpace(s[k])
    ensures e <= RunEnd(s, i)
    decreases e - i
  {
    if i < e {
      RunEndBeyond(s, i + 1, e);
    }
  }

  /** The field a conversion reads is determined: FieldAt holds of one field only,
      the one ScanField returns. */
  lemma FieldAtScanned(s: string, i: nat, w: string, e: nat, width: nat)
    requires FieldAt(s, i, w, e, width)
    ensures ScanField(s, i, width) == Some((w, e))
  {
    var j := e - |w|;
    assert s[j] == w[0];
    SkipSpaceTo(s, i, j);
    forall k | j <= k < e
      ensures !IsSpace(s[k])
    {
      assert s[k] == w[k - j];
    }
    RunEndBeyond(s, j, e);
    var run := RunEnd(s, j);
    if e < |s| && IsSpace(s[e]) {
      assert run == e;
    } else if e == |s| {
      assert run == e;
    }
  }

  /** A field written into a text is read back by the conversion: a non-empty run of
      non-white-space characters at index j, within the width, preceded from index i by
      white space only and followed by white space or the end. */
  lemma ScanWrittenField(s: string, i: nat, j: nat, w: string, width: nat)
    requires i <= j && j + |w| <= |s| && s[j..j + |w|] == w
    requires forall k :: i <= k < j ==> IsSpace(s[k])
    requires 0 < |w| && (width == 0 || |w| <= width)
    requires forall k :: 0 <= k < |w| ==> !IsSpace(w[k])
    requires j + |w| == |s| || IsSpace(s[j + |w|])
    ensures ScanField(s, i, width) == Some((w, j + |w|))
  {
    FieldAtScanned(s, i, w, j + |w|, width);
  }

  /** The `%d` conversion from index i of s: white space, an optional sign and a
      maximal run of decimal digits. As glibc does on a 64-bit target, the value is
      first saturated to a `long` then truncated to an `int` (C leaves an
      out-of-range value undefined). None when no digit follows (a matching failure). */
  function ScanInt(s: string, i: nat): (r: Option<(Int32, nat)>)
    requires i <= |s|
    ensures r.Some? ==> i < r.value.1 <= |s|
  {
    var j := SkipSpace(s, i);
    var k := if j < |s| && (s[j] == '-' || s[j] == '+') then j + 1 else j;
    var e := DigitsEnd(s, k);
    if e == k then None
    else
      var v := DigitsValue(s[k..e]);
      Some((Wrap32(Saturate64(if k > j && s[j] == '-' then -(v as int) else v)), e))
  }

  /** What ScanInt reads: None exactly when no digit follows the white space and the
      optional sign; otherwise it stops after a digit, at a non-digit or the end. */
  lemma ScanIntMeaning(s: string, i: nat)
    requires i <= |s|
    ensures ScanInt(s, i).None? <==>
      var j := SkipSpace(s, i);
      var k := if j < |s| && (s[j] == '-' || s[j] == '+') then j + 1 else j;
      k == |s| || !IsDigit(s[k])
    ensures ScanInt(s, i).Some? ==>
      var e := ScanInt(s, i).value.1;
      IsDigit(s[e - 1]) && (e == |s| || !IsDigit(s[e]))
  {
  }

  /** The value of a string of decimal digits. */
  function DigitsValue(d: string): nat
    requires AllDigits(d)
  {
    if d == [] then 0 else DigitsValue(d[..|d| - 1]) * 10 + (d[|d| - 1] as int - '0' as int)
  }

  // ---------------------------------------------------------------------------
  // printf

  function Digit(n: nat): (c: char)
    requires n < 10
    ensures IsDigit(c) && c as int - '0' as int == n
  {
    (n + '0' as int) as char
  }

  /** The decimal numeral for n, without leading zeros. */
  function FormatNat(n: nat): (r: string)
    ensures 0 < |r| && AllDigits(r)
    ensures DigitsValue(r) == n
    ensures |r| > 1 ==> r[0] != '0'
  {
    if n < 10 then [Digit(n)]
    else
      var r := FormatNat(n / 10) + [Digit(n % 10)];
      assert r[..|r| - 1] == FormatNat(n / 10);
      r
  }

  /** `printf("%d", n)`. */
  function FormatInt(n: int): (r: string)
    ensures 0 < |r|
  {
    if n < 0 then "-" + FormatNat(-n) else FormatNat(n)
  }

  /** A numeral: a minus sign exactly for a negative number, then digits only. */
  lemma FormatIntShape(n: int)
    ensures var r := FormatInt(n);
            && (r[0] == '-' <==> n < 0)
            && !IsSpace(r[0])
            && forall k :: 0 < k < |r| ==> IsDigit(r[k])
  {
  }

  /** DigitsEnd stops where a run of digits stops. */
  lemma {:induction false} DigitsEndTo(s: string, i: nat, e: nat)
    requires i <= e <= |s|
    requires forall k :: i <= k < e ==> IsDigit(s[k])
    requires e == |s| || !IsDigit(s[e])
    ensures DigitsEnd(s, i) == e
    decreases e - i
  {
    if i < e {
      DigitsEndTo(s, i + 1, e);
    }
  }

  /** A numeral written by FormatNat, standing at index k of s and not followed by a
      digit, is read back whole by the digit scan. */
  lemma ScanFormattedDigits(s: string, k: nat, m: nat)
    requires k + |FormatNat(m)| <= |s|
    requires s[k..k + |FormatNat(m)|] == FormatNat(m)
    requires k + |FormatNat(m)| == |s| || !IsDigit(s[k + |FormatNat(m)|])
    ensures DigitsEnd(s, k) == k + |FormatNat(m)|
    ensures DigitsValue(s[k..DigitsEnd(s, k)]) == m
  {
    var d := FormatNat(m);
    forall x | k <= x < k + |d| ensures IsDigit(s[x]) {
      assert s[x] == d[x - k];
    }
    DigitsEndTo(s, k, k + |d|);
  }

  /** A negative numeral written at index j of s, not followed by a digit: the minus
      sign, then the digits of its magnitude. */
  lemma NegativeIntParts(s: string, j: nat, n: Int32)
    requires n < 0
    requires j + |FormatInt(n)| <= |s|
    requires s[j..j + |FormatInt(n)|] == FormatInt(n)
    requires j + |FormatInt(n)| == |s| || !IsDigit(s[j + |FormatInt(n)|])
    ensures var e := j + |FormatInt(n)|;
            s[j] == '-' && j + 1 < e && DigitsEnd(s, j + 1) == e && DigitsValue(s[j + 1..e]) == -(n as int)
  {
    var m: nat := -(n as int);
    var d := FormatNat(m);
    assert FormatInt(n) == "-" + d;
    var e := j + |FormatInt(n)|;
    assert s[j] == FormatInt(n)[0];
    assert s[j + 1..e] == s[j..e][1..] == d;
    ScanFormattedDigits(s, j + 1, m);
  }

  /** A non-negative numeral written at index j of s, not followed by a digit: its
      digits only. */
  lemma NonNegativeIntParts(s: string, j: nat, n: Int32)
    requires n >= 0
    requires j + |FormatInt(n)| <= |s|
    requires s[j..j + |FormatInt(n)|] == FormatInt(n)
    requires j + |FormatInt(n)| == |s| || !IsDigit(s[j + |FormatInt(n)|])
    ensures var e := j + |FormatInt(n)|;
            IsDigit(s[j]) && DigitsEnd(s, j) == e && DigitsValue(s[j..e]) == n
  {
    assert FormatInt(n) == FormatNat(n);
    assert s[j] == FormatNat(n)[0];
    ScanFormattedDigits(s, j, n);
  }

  /** ScanInt on a numeral whose parts are known: white space up to index j, then a
      minus sign or not, then the digits of the magnitude of the `int` v, ending at
      index e. */
  lemma ScanIntParts(s: string, i: nat, j: nat, e: nat, v: Int32, negative: bool)
    requires i <= j < e <= |s| && SkipSpace(s, i) == j
    requires negative ==> s[j] == '-' && j + 1 < e && DigitsEnd(s, j + 1) == e && DigitsValue(s[j + 1..e]) == -(v as int)
    requires !negative ==> IsDigit(s[j]) && DigitsEnd(s, j) == e && DigitsValue(s[j..e]) == v
    ensures ScanInt(s, i) == Some((v, e))
  {
  }

  /** Round trip: `%d` reads back what `printf("%d")` wrote, wherever the numeral stands
      in the text (from index j), provided only white space precedes it from index i
      and no digit follows it. */
  lemma ScanFormattedInt(s: string, i: nat, j: nat, n: Int32)
    requires i <= j && j + |FormatInt(n)| <= |s|
    requires s[j..j + |FormatInt(n)|] == FormatInt(n)
    requires forall k :: i <= k < j ==> IsSpace(s[k])
    requires j + |FormatInt(n)| == |s| || !IsDigit(s[j + |FormatInt(n)|])
    ensures ScanInt(s, i) == Some((n, j + |FormatInt(n)|))
  {
    var e := j + |FormatInt(n)|;
    assert SkipSpace(s, i) == j by { SkipSpaceTo(s, i, j); }
    if n < 0 {
      NegativeIntParts(s, j, n);
      ScanIntParts(s, i, j, e, n, true);
    } else {
      NonNegativeIntParts(s, j, n);
      ScanIntParts(s, i, j, e, n, false);
    }
  }

  // ---------------------------------------------------------------------------
  // strcspn

  /** The text before the first newline: what `s[strcspn(s, "\n")] = 0` leaves of s. */
  function BeforeNewline(s: string): (r: string)
    ensures r <= s
    ensures '\n' !in r
    ensures |r| < |s| ==> s[|r|] == '\n'
  {
    if s == [] || s[0] == '\n' then [] else [s[0]] + BeforeNewline(s[1..])
  }
}
