/** Printing and reading of decimal numbers and separated lists, as the formatted strings use them. */
module Decimal {
  import opened Wrappers

  function DigitChar(d: nat): char
    requires d < 10
  {
    "0123456789"[d]
  }

  predicate IsDigit(c: char) {
    '0' <= c <= '9'
  }

  function DigitValue(c: char): nat
    requires IsDigit(c)
  {
    c as nat - '0' as nat
  }

  predicate AllDigits(s: string) {
    forall i :: 0 <= i < |s| ==> IsDigit(s[i])
  }

  function Value(s: string): nat
    requires AllDigits(s)
  {
    if s == "" then 0 else 10 * Value(s[..|s| - 1]) + DigitValue(s[|s| - 1])
  }

  /** Decimal digits without leading zeros. */
  function Digits(n: nat): (s: string)
    ensures s != "" && AllDigits(s)
  {
    if n < 10 then [DigitChar(n)] else Digits(n / 10) + [DigitChar(n % 10)]
  }

  function Zeros(k: nat): (s: string)
    ensures |s| == k && AllDigits(s)
  {
    seq(k, _ => '0')
  }

  /** Rust's `{:0w}`: at least `width` characters. */
  function Padded(n: nat, width: nat): (s: string)
    ensures s != "" && AllDigits(s) && |s| >= width
  {
    var s := Digits(n);
    if |s| < width then Zeros(width - |s|) + s else s
  }

  /** Rust's `parse` for an integer type of maximum `max`, on input without a minus sign. */
  function ParseUnsigned(s: string, max: nat): Option<nat> {
    var digits := if s != "" && s[0] == '+' then s[1..] else s;
    if digits != "" && AllDigits(digits) && Value(digits) <= max then Some(Value(digits)) else None
  }

  lemma {:induction false} ValueOfDigits(n: nat)
    ensures Value(Digits(n)) == n
  {
    if n >= 10 {
      ValueOfDigits(n / 10);
      assert Digits(n)[..|Digits(n)| - 1] == Digits(n / 10);
    }
  }

  lemma {:induction false} ZerosAddNothing(k: nat, s: string)
    requires AllDigits(s)
    ensures AllDigits(Zeros(k) + s) && Value(Zeros(k) + s) == Value(s)
    decreases |s|, k
  {
    if s != "" {
      ZerosAddNothing(k, s[..|s| - 1]);
      assert (Zeros(k) + s)[..k + |s| - 1] == Zeros(k) + s[..|s| - 1];
    } else if k > 0 {
      ZerosAddNothing(k - 1, s);
      assert (Zeros(k) + s)[..k - 1] == Zeros(k - 1) + s;
    }
  }

  /** Reading what was printed gives the number back. */
  lemma PaddedParsesBack(n: nat, width: nat, max: nat)
    requires n <= max
    ensures Value(Padded(n, width)) == n
    ensures ParseUnsigned(Padded(n, width), max) == Some(n)
  {
    ValueOfDigits(n);
    if |Digits(n)| < width {
      ZerosAddNothing(width - |Digits(n)|, Digits(n));
    }
  }

  lemma {:induction false} DigitCount(n: nat, width: nat)
    requires 0 < width && n < Power10(width)
    ensures |Digits(n)| <= width
    decreases width
  {
    if n >= 10 {
      var p := Power10(width - 1);
      assert Power10(width) == 10 * p;
      assert n / 10 < p;
      DigitCount(n / 10, width - 1);
    }
  }

  function Power10(k: nat): nat {
    if k == 0 then 1 else 10 * Power10(k - 1)
  }

  /** A number that fits its field fills it exactly. */
  lemma PaddedWidth(n: nat, width: nat)
    requires 0 < width && n < Power10(width)
    ensures |Padded(n, width)| == width
  {
    DigitCount(n, width);
  }

  /** Two digits read as a number. */
  predicate TwoDigits(s: string, at: nat, n: nat) {
    at + 2 <= |s| && IsDigit(s[at]) && IsDigit(s[at + 1]) && n == 10 * DigitValue(s[at]) + DigitValue(s[at + 1])
  }

  lemma PaddedTwo(n: nat)
    requires n < 100
    ensures |Padded(n, 2)| == 2 && TwoDigits(Padded(n, 2), 0, n)
  {
    assert Power10(2) == 100;
    PaddedWidth(n, 2);
    PaddedParsesBack(n, 2, n);
    var s := Padded(n, 2);
    assert s[..1][..0] == "" && s[..1][0] == s[0];
    assert Value(s) == 10 * Value(s[..1]) + DigitValue(s[1]);
  }

  lemma PaddedFour(n: nat)
    requires n < 10_000
    ensures |Padded(n, 4)| == 4
    ensures TwoDigits(Padded(n, 4), 0, n / 100) && TwoDigits(Padded(n, 4), 2, n % 100)
  {
    assert Power10(4) == 10_000;
    PaddedWidth(n, 4);
    PaddedParsesBack(n, 4, n);
    var s := Padded(n, 4);
    assert s[..3][..2] == s[..2] && s[..2][..1] == s[..1] && s[..1][..0] == "";
    assert Value(s) == 10 * Value(s[..3]) + DigitValue(s[3]);
    assert Value(s[..3]) == 10 * Value(s[..2]) + DigitValue(s[2]);
    assert Value(s[..2]) == 10 * Value(s[..1]) + DigitValue(s[1]);
    assert Value(s[..1]) == DigitValue(s[0]);
  }

  /** Only the number 0 is printed with a leading zero. */
  lemma {:induction false} NoLeadingZero(n: nat)
    ensures Digits(n)[0] == '0' ==> n == 0 && Digits(n) == "0"
  {
    if n >= 10 {
      NoLeadingZero(n / 10);
    }
  }

  // ----- separated lists -----

  function Split(s: string, sep: char): (parts: seq<string>)
    ensures parts != []
  {
    if s == "" then [""]
    else if s[0] == sep then [""] + Split(s[1..], sep)
    else
      var rest := Split(s[1..], sep);
      [[s[0]] + rest[0]] + rest[1..]
  }

  function Join(parts: seq<string>, sep: char): string {
    if parts == [] then ""
    else if |parts| == 1 then parts[0]
    else parts[0] + [sep] + Join(parts[1..], sep)
  }

  lemma {:induction false} SplitPlain(s: string, sep: char)
    requires sep !in s
    ensures Split(s, sep) == [s]
  {
    if s != "" {
      assert forall c :: c in s[1..] ==> c in s;
      SplitPlain(s[1..], sep);
      assert [s[0]] + s[1..] == s;
    }
  }

  lemma {:induction false} SplitFirst(part: string, rest: string, sep: char)
    requires sep !in part
    ensures Split(part + [sep] + rest, sep) == [part] + Split(rest, sep)
  {
    var s := part + [sep] + rest;
    if part == "" {
      assert s[1..] == rest;
    } else {
      assert forall c :: c in part[1..] ==> c in part;
      SplitFirst(part[1..], rest, sep);
      assert s[1..] == part[1..] + [sep] + rest;
      assert [part[0]] + part[1..] == part;
    }
  }

  /** Splitting undoes joining when no part contains the separator. */
  lemma {:induction false} SplitUndoesJoin(parts: seq<string>, sep: char)
    requires parts != [] && forall i :: 0 <= i < |parts| ==> sep !in parts[i]
    ensures Split(Join(parts, sep), sep) == parts
  {
    if |parts| == 1 {
      SplitPlain(parts[0], sep);
    } else {
      SplitUndoesJoin(parts[1..], sep);
      SplitFirst(parts[0], Join(parts[1..], sep), sep);
    }
  }
}
