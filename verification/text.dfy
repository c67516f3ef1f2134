/**
 * The string operations the converter relies on, with the semantics of the
 * JavaScript built-ins it calls: `String.prototype.split` on a one-character
 * separator, ASCII `toLowerCase`, and the decimal printing of an integer in a
 * template literal.
 */
module Text {
  import opened Wrappers

  /** Joins segments with `sep` between consecutive ones (`Array.prototype.join`). */
  function Join(parts: seq<string>, sep: char): string
    requires |parts| >= 1
  {
    if |parts| == 1 then parts[0] else parts[0] + [sep] + Join(parts[1..], sep)
  }

  /**
   * `s.split(sep)` for a one-character separator: never empty, no segment
   * contains the separator, and joining the segments gives `s` back.
   */
  function Split(s: string, sep: char): (parts: seq<string>)
    ensures |parts| >= 1
    ensures forall k :: 0 <= k < |parts| ==> sep !in parts[k]
    ensures Join(parts, sep) == s
  {
    if |s| == 0 then [""]
    else
      var rest := Split(s[1..], sep);
      if s[0] == sep then
        assert [""] + rest == [""] + rest;
        [""] + rest
      else
        var head := [s[0]] + rest[0];
        assert sep !in head;
        JoinConsChar(s[0], rest, sep);
        [head] + rest[1..]
  }

  /** Prepending a character to the first segment prepends it to the joined string. */
  lemma JoinConsChar(c: char, parts: seq<string>, sep: char)
    requires |parts| >= 1
    ensures Join([[c] + parts[0]] + parts[1..], sep) == [c] + Join(parts, sep)
  {
    var ps := [[c] + parts[0]] + parts[1..];
    assert ps[1..] == parts[1..];
  }

  /** Splitting a string that begins with a separator-free run. */
  lemma {:induction false} SplitPrefix(a: string, t: string, sep: char)
    requires sep !in a
    ensures Split(a + t, sep) == [a + Split(t, sep)[0]] + Split(t, sep)[1..]
  {
    if |a| == 0 {
      assert a + t == t;
      var p := Split(t, sep);
      assert a + p[0] == p[0];
      assert [p[0]] + p[1..] == p;
    } else {
      assert (a + t)[1..] == a[1..] + t;
      assert (a + t)[0] == a[0];
      SplitPrefix(a[1..], t, sep);
      assert [a[0]] + (a[1..] + Split(t, sep)[0]) == a + Split(t, sep)[0];
    }
  }

  /** Split is a left inverse of Join on separator-free segments. */
  lemma {:induction false} SplitJoin(parts: seq<string>, sep: char)
    requires |parts| >= 1
    requires forall k :: 0 <= k < |parts| ==> sep !in parts[k]
    ensures Split(Join(parts, sep), sep) == parts
  {
    if |parts| == 1 {
      SplitPrefix(parts[0], "", sep);
      assert parts[0] + "" == parts[0];
    } else {
      var tail := Join(parts[1..], sep);
      SplitJoin(parts[1..], sep);
      assert parts[0] + [sep] + tail == parts[0] + ([sep] + tail);
      SplitPrefix(parts[0], [sep] + tail, sep);
      assert ([sep] + tail)[1..] == tail;
      assert Split([sep] + tail, sep) == [""] + parts[1..];
      assert parts[0] + "" == parts[0];
      assert [parts[0]] + parts[1..] == parts;
    }
  }

  /** Join of several segments is the join of all but the last, a separator, then the last. */
  lemma {:induction false} JoinLast(parts: seq<string>, sep: char)
    requires |parts| >= 2
    ensures Join(parts, sep) == Join(parts[..|parts| - 1], sep) + [sep] + parts[|parts| - 1]
  {
    if |parts| == 2 {
      assert parts[..1] == [parts[0]];
    } else {
      JoinLast(parts[1..], sep);
      assert parts[1..][..|parts| - 2] == parts[..|parts| - 1][1..];
    }
  }

  /**
   * `s.split(sep)[0]`: the longest prefix of `s` that holds no separator.
   */
  function FirstSegment(s: string, sep: char): (r: string)
    ensures |r| <= |s| && r == s[..|r|]
    ensures sep !in r
    ensures |r| == |s| || s[|r|] == sep
  {
    var parts := Split(s, sep);
    assert |parts| > 1 ==> Join(parts, sep) == parts[0] + ([sep] + Join(parts[1..], sep));
    parts[0]
  }

  /**
   * `s.split(sep).pop()`: the longest suffix of `s` that holds no separator.
   */
  function LastSegment(s: string, sep: char): (r: string)
    ensures |r| <= |s| && r == s[|s| - |r|..]
    ensures sep !in r
    ensures |r| == |s| || s[|s| - |r| - 1] == sep
  {
    var parts := Split(s, sep);
    if |parts| == 1 then parts[0]
    else
      JoinLast(parts, sep);
      parts[|parts| - 1]
  }

  /** The separator-free segment after the last separator of `a + [sep] + b` is that of `b`. */
  lemma LastSegmentAfterSep(a: string, b: string, sep: char)
    requires sep !in b
    ensures LastSegment(a + [sep] + b, sep) == b
  {
    SplitAppend(a, b, sep);
  }

  /** Appending a separator and a separator-free run adds exactly one segment. */
  lemma SplitAppend(x: string, b: string, sep: char)
    requires sep !in b
    ensures Split(x + [sep] + b, sep) == Split(x, sep) + [b]
  {
    var parts := Split(x, sep) + [b];
    assert parts[..|parts| - 1] == Split(x, sep);
    JoinLast(parts, sep);
    SplitJoin(parts, sep);
  }

  /** The separator-free segment before the first separator of `a + [sep] + b` is `a`. */
  lemma FirstSegmentBeforeSep(a: string, b: string, sep: char)
    requires sep !in a
    ensures FirstSegment(a + [sep] + b, sep) == a
  {
    assert a + [sep] + b == a + ([sep] + b);
    SplitPrefix(a, [sep] + b, sep);
    assert a + "" == a;
  }

  /** ASCII `toLowerCase` of one character. */
  function LowerChar(c: char): (r: char)
    ensures 'A' <= c <= 'Z' ==> 'a' <= r <= 'z' && r as int - c as int == 32
    ensures !('A' <= c <= 'Z') ==> r == c
  {
    if 'A' <= c <= 'Z' then (c as int + 32) as char else c
  }

  /** `toLowerCase` over ASCII letters; every other character is kept. */
  function ToLower(s: string): (r: string)
    ensures |r| == |s|
    ensures forall k :: 0 <= k < |s| ==> r[k] == LowerChar(s[k])
  {
    if |s| == 0 then "" else [LowerChar(s[0])] + ToLower(s[1..])
  }

  /** Lower-casing works character by character, so it distributes over concatenation. */
  lemma ToLowerAppend(a: string, b: string)
    ensures ToLower(a + b) == ToLower(a) + ToLower(b)
  {
    var l, r := ToLower(a + b), ToLower(a) + ToLower(b);
    assert |l| == |r|;
    forall k | 0 <= k < |l| ensures l[k] == r[k] {
      if k < |a| {
        assert (a + b)[k] == a[k];
      } else {
        assert (a + b)[k] == b[k - |a|];
      }
    }
  }

  /** Lower-casing neither creates nor removes a separator that is not a letter. */
  lemma ToLowerKeepsSeparator(s: string, sep: char)
    requires !('A' <= sep <= 'Z') && !('a' <= sep <= 'z')
    ensures sep in ToLower(s) <==> sep in s
  {
    if sep in s {
      var k :| 0 <= k < |s| && s[k] == sep;
      assert ToLower(s)[k] == sep;
    }
    if sep in ToLower(s) {
      var k :| 0 <= k < |s| && ToLower(s)[k] == sep;
      assert s[k] == sep;
    }
  }

  predicate IsDigit(c: char) { '0' <= c <= '9' }

  function DigitChar(d: int): (c: char)
    requires 0 <= d < 10
    ensures IsDigit(c) && c as int - '0' as int == d
  {
    ('0' as int + d) as char
  }

  /** Decimal digits of a natural number, most significant first, no leading zero. */
  function NatToString(n: nat): (r: string)
    ensures |r| >= 1
    ensures forall k :: 0 <= k < |r| ==> IsDigit(r[k])
    ensures |r| > 1 ==> r[0] != '0'
  {
    if n < 10 then [DigitChar(n)] else NatToString(n / 10) + [DigitChar(n % 10)]
  }

  /** A non-empty run of decimal digits with no leading zero. */
  predicate IsCanonicalDigits(s: string) {
    && |s| >= 1
    && (forall k :: 0 <= k < |s| ==> IsDigit(s[k]))
    && (|s| > 1 ==> s[0] != '0')
  }

  /** `${n}` for an integer `n`: an optional minus sign, then the digits of |n|. */
  function IntToString(n: int): (r: string)
    ensures |r| >= 1
    ensures r[0] == '-' <==> n < 0
    ensures n < 0 ==> IsCanonicalDigits(r[1..])
    ensures n >= 0 ==> IsCanonicalDigits(r)
  {
    if n < 0 then "-" + NatToString(-n) else NatToString(n)
  }

  /** Reads a non-empty run of decimal digits. */
  function ParseDigits(s: string): (r: Option<nat>)
    ensures r.Some? <==> |s| >= 1 && forall k :: 0 <= k < |s| ==> IsDigit(s[k])
  {
    if |s| == 0 then None
    else if !IsDigit(s[|s| - 1]) then None
    else if |s| == 1 then Some(s[0] as int - '0' as int)
    else match ParseDigits(s[..|s| - 1])
      case None => None
      case Some(v) => Some(10 * v + (s[|s| - 1] as int - '0' as int))
  }

  /** Reads an optionally negated run of decimal digits. */
  function ParseInt(s: string): Option<int> {
    if |s| >= 1 && s[0] == '-' then
      match ParseDigits(s[1..])
      case None => None
      case Some(v) => Some(0 - v as int)
    else
      match ParseDigits(s)
      case None => None
      case Some(v) => var value: int := v; Some(value)
  }

  lemma {:induction false} ParseNatToString(n: nat)
    ensures ParseDigits(NatToString(n)) == Some(n)
  {
    if n >= 10 {
      var s := NatToString(n);
      ParseNatToString(n / 10);
      assert s[..|s| - 1] == NatToString(n / 10);
    }
  }

  /** Printing an integer and reading it back gives the integer. */
  lemma ParseIntToString(n: int)
    ensures ParseInt(IntToString(n)) == Some(n)
  {
    if n < 0 {
      var digits := NatToString(-n);
      ParseNatToString(-n);
      var s := "-" + digits;
      assert s[0] == '-';
      assert s[1..] == digits;
    } else {
      var digits := NatToString(n);
      ParseNatToString(n);
      assert IsDigit(digits[0]);
    }
  }

  /** A printed integer holds only a leading minus and digits. */
  lemma IntToStringChars(n: int, c: char)
    requires c != '-' && !IsDigit(c)
    ensures c !in IntToString(n)
  {
  }
}
