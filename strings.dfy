/**
  String helpers the home feed relies on: JavaScript's `Array.prototype.join`,
  `String.prototype.split` on a one-character separator, and the decimal text
  of an integer (what a template literal prints for an integral number),
  each with an inverse it is proved against.
 */
module Strings {

  /** `parts.join(sep)`: the parts in order, `sep` between neighbours; `[]` joins to "". */
  function Join(parts: seq<string>, sep: string): string
  {
    if |parts| == 0 then ""
    else if |parts| == 1 then parts[0]
    else parts[0] + sep + Join(parts[1..], sep)
  }

  /** A join is empty only when its first part is, or when there are no parts. */
  lemma JoinNonEmpty(parts: seq<string>, sep: string)
    ensures parts != [] && parts[0] != "" ==> Join(parts, sep) != ""
  {
    if |parts| > 1 && parts[0] != "" {
      assert Join(parts, sep) == parts[0] + (sep + Join(parts[1..], sep));
    }
  }

  /** A join of two parts puts the separator between them. */
  lemma JoinPair(a: string, b: string, sep: string)
    ensures Join([a, b], sep) == a + sep + b
  {
    assert [a, b][1..] == [b];
  }

  /** Number of occurrences of `c` in `s`. */
  function Occurrences(s: string, c: char): nat
  {
    if s == [] then 0 else (if s[0] == c then 1 else 0) + Occurrences(s[1..], c)
  }

  /**
    `s.split(sep)`: the maximal runs between separators. It never fails:
    the empty string splits into `[""]`, and there is always one segment
    more than there are separators.
   */
  function Split(s: string, sep: char): (r: seq<string>)
    ensures |r| == Occurrences(s, sep) + 1
    ensures forall k :: 0 <= k < |r| ==> sep !in r[k]
  {
    if s == [] then [""]
    else
      var rest := Split(s[1..], sep);
      if s[0] == sep then [""] + rest
      else [[s[0]] + rest[0]] + rest[1..]
  }

  /** Joining the segments back with the separator gives the original string. */
  lemma {:induction false} JoinSplit(s: string, sep: char)
    ensures Join(Split(s, sep), [sep]) == s
  {
    if s != [] {
      var rest := Split(s[1..], sep);
      JoinSplit(s[1..], sep);
      if s[0] == sep {
        assert Split(s, sep) == [""] + rest;
        assert ([""] + rest)[1..] == rest;
      } else {
        var parts := [[s[0]] + rest[0]] + rest[1..];
        assert Split(s, sep) == parts;
        if |rest| > 1 {
          assert parts[1..] == rest[1..];
          assert Join(rest, [sep]) == rest[0] + [sep] + Join(rest[1..], [sep]);
        }
      }
    }
  }

  lemma {:induction false} SplitWithoutSeparator(a: string, sep: char)
    requires sep !in a
    ensures Split(a, sep) == [a]
  {
    if a != [] {
      SplitWithoutSeparator(a[1..], sep);
      assert a[0] != sep;
      assert [a[0]] + a[1..] == a;
    }
  }

  lemma {:induction false} SplitAfterSegment(a: string, b: string, sep: char)
    requires sep !in a
    ensures Split(a + [sep] + b, sep) == [a] + Split(b, sep)
  {
    var s := a + [sep] + b;
    if a == [] {
      assert s[0] == sep && s[1..] == b;
    } else {
      assert s[0] == a[0] && s[1..] == a[1..] + [sep] + b;
      SplitAfterSegment(a[1..], b, sep);
      assert [a[0]] + a[1..] == a;
    }
  }

  /** Splitting a join of separator-free segments gives the segments back. */
  lemma {:induction false} SplitJoin(parts: seq<string>, sep: char)
    requires |parts| >= 1
    requires forall k :: 0 <= k < |parts| ==> sep !in parts[k]
    ensures Split(Join(parts, [sep]), sep) == parts
  {
    if |parts| == 1 {
      SplitWithoutSeparator(parts[0], sep);
    } else {
      SplitJoin(parts[1..], sep);
      SplitAfterSegment(parts[0], Join(parts[1..], [sep]), sep);
      assert [parts[0]] + parts[1..] == parts;
    }
  }

  /** The last part can be split off a join of two or more parts. */
  lemma {:induction false} JoinSnoc(parts: seq<string>, sep: string)
    requires |parts| >= 2
    ensures Join(parts, sep) == Join(parts[..|parts| - 1], sep) + sep + parts[|parts| - 1]
  {
    if |parts| > 2 {
      JoinSnoc(parts[1..], sep);
      assert parts[1..][..|parts| - 2] == parts[..|parts| - 1][1..];
    }
  }

  /** The character of a decimal digit. */
  function DigitChar(d: nat): (c: char)
    requires d < 10
    ensures '0' <= c <= '9'
  {
    (48 + d) as char
  }

  /** Decimal digits of `n`, most significant first, without leading zeros. */
  function NatToString(n: nat): (s: string)
    ensures |s| >= 1
    ensures forall k :: 0 <= k < |s| ==> '0' <= s[k] <= '9'
    ensures s[0] == '0' <==> n == 0
    ensures n < 10 <==> |s| == 1
  {
    if n < 10 then [DigitChar(n)] else NatToString(n / 10) + [DigitChar(n % 10)]
  }

  /** Decimal digits without a leading zero, except for "0" itself. */
  predicate IsCanonicalNat(s: string)
  {
    && |s| >= 1
    && (forall k :: 0 <= k < |s| ==> '0' <= s[k] <= '9')
    && (s[0] == '0' ==> |s| == 1)
  }

  /** A canonical decimal numeral: a canonical digit string, with a minus sign in front only for a non-zero value. */
  predicate IsCanonicalInt(s: string)
  {
    || IsCanonicalNat(s)
    || (|s| >= 2 && s[0] == '-' && s[1] != '0' && IsCanonicalNat(s[1..]))
  }

  /** What a template literal prints for an integral JavaScript number. */
  function IntToString(n: int): string
  {
    if n < 0 then "-" + NatToString(-n) else NatToString(n)
  }

  /** Printing yields a canonical numeral, with a minus sign exactly for negative values. */
  lemma IntToStringCanonical(n: int)
    ensures IsCanonicalInt(IntToString(n))
    ensures IntToString(n)[0] == '-' <==> n < 0
  {
  }

  /** Value of a string of decimal digits. */
  function ParseNat(s: string): int
  {
    if s == [] then 0 else 10 * ParseNat(s[..|s| - 1]) + (s[|s| - 1] as int - 48)
  }

  /** Value of an optionally signed decimal numeral. */
  function ParseInt(s: string): int
  {
    if |s| > 0 && s[0] == '-' then -ParseNat(s[1..]) else ParseNat(s)
  }

  lemma {:induction false} ParseNatToString(n: nat)
    ensures ParseNat(NatToString(n)) == n
  {
    if n >= 10 {
      ParseNatToString(n / 10);
      var s := NatToString(n);
      assert s[..|s| - 1] == NatToString(n / 10);
    }
  }

  /** The decimal text of an integer reads back as that integer. */
  lemma ParseIntToString(n: int)
    ensures ParseInt(IntToString(n)) == n
  {
    var s := IntToString(n);
    if n < 0 {
      var t := NatToString(-n);
      ParseNatToString(-n);
      assert s == "-" + t;
      assert s[0] == '-' && s[1..] == t;
    } else {
      ParseNatToString(n);
      assert '0' <= s[0] <= '9';
    }
  }

  /** A digit string without a leading zero has a positive value. */
  lemma {:induction false} ParseNatPositive(s: string)
    requires IsCanonicalNat(s) && s[0] != '0'
    ensures ParseNat(s) >= 1
  {
    if |s| > 1 {
      var p := s[..|s| - 1];
      assert p[0] == s[0];
      ParseNatPositive(p);
    }
  }

  /** A canonical digit string is the printed form of its own value. */
  lemma {:induction false} NatToStringParseNat(s: string)
    requires IsCanonicalNat(s)
    ensures ParseNat(s) >= 0 && NatToString(ParseNat(s)) == s
  {
    var d := s[|s| - 1] as int - 48;
    if |s| == 1 {
      assert ParseNat(s) == d;
      assert s == [DigitChar(d)];
    } else {
      var p := s[..|s| - 1];
      assert p[0] == s[0];
      ParseNatPositive(p);
      NatToStringParseNat(p);
      var q := ParseNat(p);
      var n := 10 * q + d;
      assert n / 10 == q && n % 10 == d;
      assert s == p + [DigitChar(d)];
    }
  }

  /**
    Every canonical numeral is the printed form of the integer it reads as,
    so printing is a bijection between integers and canonical numerals.
   */
  lemma IntToStringParseInt(s: string)
    requires IsCanonicalInt(s)
    ensures IntToString(ParseInt(s)) == s
  {
    if |s| >= 2 && s[0] == '-' {
      var t := s[1..];
      NatToStringParseNat(t);
      ParseNatPositive(t);
      assert s == "-" + t;
    } else {
      NatToStringParseNat(s);
    }
  }
}
