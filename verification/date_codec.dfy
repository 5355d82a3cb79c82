/**
 The pieces of a `YYYY-MM-DD` date constant: splitting text on a separator, decimal
 fields, and the packed 32-bit date `((year - 1900) << 16) | ((month - 1) << 8) | day`
 that the insert path stores for a DATE column.
 */
module DateCodec {
  import opened Wrappers
  import opened Bytes

  // ---------------------------------------------------------------- splitting

  /** The fields of `s` between occurrences of `sep`; empty fields are kept. */
  function SplitOn(s: string, sep: char): (parts: seq<string>)
    ensures |parts| >= 1
    decreases |s|
  {
    if |s| == 0 then [""]
    else
      var rest := SplitOn(s[1..], sep);
      if s[0] == sep then [""] + rest else [[s[0]] + rest[0]] + rest[1..]
  }

  /** The fields written one after another with `sep` between them. */
  function JoinWith(parts: seq<string>, sep: char): string
    requires |parts| >= 1
  {
    if |parts| == 1 then parts[0] else parts[0] + [sep] + JoinWith(parts[1..], sep)
  }

  /** A field without separators followed by the separator and more text splits off as the first field. */
  lemma {:induction false} SplitFirst(a: string, sep: char, rest: string)
    requires sep !in a
    ensures SplitOn(a + [sep] + rest, sep) == [a] + SplitOn(rest, sep)
    decreases |a|
  {
    if |a| == 0 {
      assert a + [sep] + rest == [sep] + rest;
      assert ([sep] + rest)[1..] == rest;
    } else {
      var t := a + [sep] + rest;
      assert t[1..] == a[1..] + [sep] + rest;
      SplitFirst(a[1..], sep, rest);
      assert [t[0]] + a[1..] == a;
    }
  }

  /** A field without separators splits to itself. */
  lemma {:induction false} SplitNone(a: string, sep: char)
    requires sep !in a
    ensures SplitOn(a, sep) == [a]
    decreases |a|
  {
    if |a| > 0 {
      SplitNone(a[1..], sep);
      assert [a[0]] + a[1..] == a;
    }
  }

  /** Splitting a join of separator-free fields gives the fields back. */
  lemma {:induction false} SplitJoin(parts: seq<string>, sep: char)
    requires |parts| >= 1
    requires forall i :: 0 <= i < |parts| ==> sep !in parts[i]
    ensures SplitOn(JoinWith(parts, sep), sep) == parts
    decreases |parts|
  {
    if |parts| == 1 {
      SplitNone(parts[0], sep);
    } else {
      SplitJoin(parts[1..], sep);
      SplitFirst(parts[0], sep, JoinWith(parts[1..], sep));
      assert [parts[0]] + parts[1..] == parts;
    }
  }

  // ---------------------------------------------------------------- decimal fields

  function DigitValue(c: char): nat
    requires '0' <= c <= '9'
  {
    c as nat - '0' as nat
  }

  function DigitChar(d: nat): (c: char)
    requires d < 10
    ensures '0' <= c <= '9' && DigitValue(c) == d
  {
    (d + '0' as nat) as char
  }

  predicate AllDigits(s: string) {
    forall i :: 0 <= i < |s| ==> '0' <= s[i] <= '9'
  }

  /** The value of a non-empty run of decimal digits; anything else does not parse. */
  function ParseNat(s: string): (r: Option<nat>)
    ensures r.Some? <==> |s| > 0 && AllDigits(s)
    decreases |s|
  {
    if |s| == 0 || !AllDigits(s) then None
    else if |s| == 1 then Some(DigitValue(s[0]))
    else
      var high := ParseNat(s[..|s| - 1]);
      Some(high.value * 10 + DigitValue(s[|s| - 1]))
  }

  /** The shortest decimal spelling of `n`. */
  function Decimal(n: nat): (s: string)
    ensures |s| > 0 && AllDigits(s)
  {
    if n < 10 then [DigitChar(n)] else Decimal(n / 10) + [DigitChar(n % 10)]
  }

  lemma {:induction false} DecimalRoundTrip(n: nat)
    ensures ParseNat(Decimal(n)) == Some(n)
  {
    if n >= 10 {
      var s := Decimal(n);
      DecimalRoundTrip(n / 10);
      assert s[..|s| - 1] == Decimal(n / 10);
    }
  }

  // ---------------------------------------------------------------- dates

  /**
   Read a date constant as year, month and day: exactly three decimal fields separated
   by '-'. Range checks are the caller's business.
   */
  function ParseDate(s: string): (r: Option<(nat, nat, nat)>)
    ensures r.Some? <==> |SplitOn(s, '-')| == 3
                         && ParseNat(SplitOn(s, '-')[0]).Some?
                         && ParseNat(SplitOn(s, '-')[1]).Some?
                         && ParseNat(SplitOn(s, '-')[2]).Some?
  {
    var parts := SplitOn(s, '-');
    if |parts| != 3 then None
    else
      match (ParseNat(parts[0]), ParseNat(parts[1]), ParseNat(parts[2]))
      case (Some(y), Some(m), Some(d)) => Some((y, m, d))
      case _ => None
  }

  function FormatDate(y: nat, m: nat, d: nat): string {
    JoinWith([Decimal(y), Decimal(m), Decimal(d)], '-')
  }

  /** A date written as `year-month-day` in decimal is read back as the same three numbers. */
  lemma FormatParseRoundTrip(y: nat, m: nat, d: nat)
    ensures ParseDate(FormatDate(y, m, d)) == Some((y, m, d))
  {
    var parts := [Decimal(y), Decimal(m), Decimal(d)];
    NoSeparatorInDigits(parts[0]);
    NoSeparatorInDigits(parts[1]);
    NoSeparatorInDigits(parts[2]);
    SplitJoin(parts, '-');
    DecimalRoundTrip(y);
    DecimalRoundTrip(m);
    DecimalRoundTrip(d);
  }

  lemma NoSeparatorInDigits(s: string)
    requires AllDigits(s)
    ensures '-' !in s
  {
    forall i | 0 <= i < |s|
      ensures s[i] != '-'
    {
    }
  }

  /** The ranges the insert path accepts before packing. */
  predicate ValidDate(y: int, m: int, d: int) {
    1900 <= y <= 9999 && 1 <= m <= 12 && 1 <= d <= 31
  }

  // ---------------------------------------------------------------- packing

  /** Bitwise OR of two non-negative integers, bit by bit from the lowest. */
  function BitOr(a: nat, b: nat): nat
    decreases a + b
  {
    if a == 0 then b
    else if b == 0 then a
    else 2 * BitOr(a / 2, b / 2) + (if a % 2 == 1 || b % 2 == 1 then 1 else 0)
  }

  /** The left shift `x << k` of a non-negative value with room to spare. */
  function Shl(x: nat, k: nat): nat {
    x * Pow2(k)
  }

  /** OR-ing a value below `2^k` into a value shifted by `k` is addition: the bits do not meet. */
  lemma {:induction false} BitOrDisjoint(a: nat, b: nat, k: nat)
    requires b < Pow2(k)
    ensures BitOr(Shl(a, k), b) == Shl(a, k) + b
  {
    if k == 0 {
      assert b == 0;
    } else if a != 0 && b != 0 {
      var h := Shl(a, k - 1);
      ShlStep(a, k);
      BitOrDisjoint(a, b / 2, k - 1);
      assert (2 * h) / 2 == h && (2 * h) % 2 == 0;
      assert BitOr(Shl(a, k), b) == 2 * BitOr(h, b / 2) + b % 2;
    }
  }

  lemma ShlStep(a: nat, k: nat)
    requires k > 0
    ensures Shl(a, k) == 2 * Shl(a, k - 1)
  {
    assert Pow2(k) == 2 * Pow2(k - 1);
  }

  lemma BitOrDouble(x: nat, y: nat)
    ensures BitOr(2 * x, 2 * y) == 2 * BitOr(x, y)
  {
    if x != 0 && y != 0 {
      assert (2 * x) / 2 == x && (2 * x) % 2 == 0;
      assert (2 * y) / 2 == y && (2 * y) % 2 == 0;
    }
  }

  /** Shifting both operands by the same amount shifts their OR. */
  lemma {:induction false} BitOrShift(a: nat, b: nat, k: nat)
    ensures BitOr(Shl(a, k), Shl(b, k)) == Shl(BitOr(a, b), k)
  {
    if k > 0 {
      BitOrShift(a, b, k - 1);
      ShlStep(a, k);
      ShlStep(b, k);
      ShlStep(BitOr(a, b), k);
      BitOrDouble(Shl(a, k - 1), Shl(b, k - 1));
    }
  }

  /** The packed date as the insert path computes it: three ORs of shifted fields. */
  function PackDate(y: nat, m: nat, d: nat): nat
    requires ValidDate(y, m, d)
  {
    BitOr(BitOr(Shl(y - 1900, 16), Shl(m - 1, 8)), d)
  }

  /** The packed date is the sum of the shifted fields, so it fits a signed 32-bit integer. */
  lemma PackDateValue(y: nat, m: nat, d: nat)
    requires ValidDate(y, m, d)
    ensures PackDate(y, m, d) == (y - 1900) * 65536 + (m - 1) * 256 + d
    ensures 0 < PackDate(y, m, d) < TWO_31
  {
    assert Pow2(8) == 256;
    assert Pow2(16) == 65536 by {
      assert Pow2(16) == Pow2(8) * Pow2(8) by { Pow2Add(8, 8); }
    }
    var yy: nat := y - 1900;
    var mm: nat := m - 1;
    assert Shl(yy, 16) == Shl(Shl(yy, 8), 8);
    BitOrShift(Shl(yy, 8), mm, 8);
    BitOrDisjoint(yy, mm, 8);
    BitOrDisjoint(Shl(yy, 8) + mm, d, 8);
  }

  lemma {:induction false} Pow2Add(a: nat, b: nat)
    ensures Pow2(a + b) == Pow2(a) * Pow2(b)
  {
    if a > 0 {
      Pow2Add(a - 1, b);
    }
  }

  /** Field extraction: bits 16 and up hold the year offset, bits 8..15 the month, 0..7 the day. */
  function UnpackDate(v: nat): (nat, nat, nat) {
    (v / 65536 + 1900, (v / 256) % 256 + 1, v % 256)
  }

  /** The three fields occupy disjoint bit ranges, so a packed date gives back its year, month and day. */
  lemma PackDateRoundTrip(y: nat, m: nat, d: nat)
    requires ValidDate(y, m, d)
    ensures UnpackDate(PackDate(y, m, d)) == (y, m, d)
  {
    PackDateValue(y, m, d);
    var v := PackDate(y, m, d);
    var low := (m - 1) * 256 + d;
    assert v == (y - 1900) * 65536 + low && low < 65536;
    assert v / 65536 == y - 1900;
    assert v / 256 == (y - 1900) * 256 + (m - 1);
    assert (v / 256) % 256 == m - 1;
    assert v % 256 == d;
  }

  /** Distinct valid dates pack to distinct values. */
  lemma PackDateInjective(y1: nat, m1: nat, d1: nat, y2: nat, m2: nat, d2: nat)
    requires ValidDate(y1, m1, d1) && ValidDate(y2, m2, d2)
    requires PackDate(y1, m1, d1) == PackDate(y2, m2, d2)
    ensures y1 == y2 && m1 == m2 && d1 == d2
  {
    PackDateRoundTrip(y1, m1, d1);
    PackDateRoundTrip(y2, m2, d2);
  }
}
