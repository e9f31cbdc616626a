/** Option, as used for the source's `undefined` / `null` results. */
module Wrappers {
  datatype Option<+T> = None | Some(value: T)
}

/**
  String helpers with the semantics of the JavaScript built-ins the system
  relies on: `trim`, `split` on one character, `join`, `includes`,
  `startsWith`/`endsWith`, ASCII `toLowerCase`, `<` on strings (code-point
  order), decimal rendering of integers, `parseInt`, and hex encoding as done by
  Node's `Buffer`.
 */
module Text {
  import opened Wrappers

  // ---------------------------------------------------------------------------
  // Whitespace and trim

  /** The characters `String.prototype.trim` removes (white space and line terminators). */
  predicate IsSpace(c: char) {
    c == ' ' || c == '\t' || c == '\n' || c == '\r' || c == '\U{000B}' || c == '\U{000C}'
    || c == '\U{00A0}' || c == '\U{1680}' || ('\U{2000}' <= c <= '\U{200A}')
    || c == '\U{2028}' || c == '\U{2029}' || c == '\U{202F}' || c == '\U{205F}'
    || c == '\U{3000}' || c == '\U{FEFF}'
  }

  predicate AllSpace(s: string) {
    forall i :: 0 <= i < |s| ==> IsSpace(s[i])
  }

  function TrimStart(s: string): (r: string)
    ensures |r| <= |s| && r == s[|s| - |r|..]
    ensures r == [] || !IsSpace(r[0])
  {
    if |s| > 0 && IsSpace(s[0]) then TrimStart(s[1..]) else s
  }

  function TrimEnd(s: string): (r: string)
    ensures |r| <= |s| && r == s[..|r|]
    ensures r == [] || !IsSpace(r[|r| - 1])
  {
    if |s| > 0 && IsSpace(s[|s| - 1]) then TrimEnd(s[..|s| - 1]) else s
  }

  /** `s.trim()`: white space removed from both ends. */
  function Trim(s: string): (r: string)
    ensures |r| <= |s|
    ensures r == [] || (!IsSpace(r[0]) && !IsSpace(r[|r| - 1]))
  {
    TrimEnd(TrimStart(s))
  }

  /** What `TrimStart` drops is white space. */
  lemma {:induction false} TrimStartDropsSpace(s: string)
    ensures AllSpace(s[..|s| - |TrimStart(s)|])
    decreases |s|
  {
    if |s| > 0 && IsSpace(s[0]) {
      var r := TrimStart(s[1..]);
      TrimStartDropsSpace(s[1..]);
      assert s[..|s| - |r|] == [s[0]] + s[1..][..|s[1..]| - |r|];
    }
  }

  /** What `TrimEnd` drops is white space. */
  lemma {:induction false} TrimEndDropsSpace(s: string)
    ensures AllSpace(s[|TrimEnd(s)|..])
    decreases |s|
  {
    if |s| > 0 && IsSpace(s[|s| - 1]) {
      var r := TrimEnd(s[..|s| - 1]);
      TrimEndDropsSpace(s[..|s| - 1]);
      assert s[|r|..] == s[..|s| - 1][|r|..] + [s[|s| - 1]];
    }
  }

  /**
    `s.trim()` is the middle of `s` between a white-space prefix and a
    white-space suffix; with the ends of the result not white space, that
    is exactly the edge white space removed.
   */
  lemma TrimIsMiddle(s: string)
    ensures exists k :: 0 <= k <= |s| - |Trim(s)| && Trim(s) == s[k..k + |Trim(s)|]
                        && AllSpace(s[..k]) && AllSpace(s[k + |Trim(s)|..])
  {
    var t := TrimStart(s);
    var r := TrimEnd(t);
    var k := |s| - |t|;
    TrimStartDropsSpace(s);
    TrimEndDropsSpace(t);
    assert r == s[k..k + |r|];
    assert s[k + |r|..] == t[|r|..];
  }

  lemma {:induction false} TrimStartOfSpace(s: string)
    requires AllSpace(s)
    ensures TrimStart(s) == []
    decreases |s|
  {
    if |s| > 0 {
      assert AllSpace(s[1..]) by {
        forall i | 0 <= i < |s[1..]| ensures IsSpace(s[1..][i]) { assert s[1..][i] == s[i + 1]; }
      }
      TrimStartOfSpace(s[1..]);
    }
  }

  /** A character that is not white space survives `TrimStart`. */
  lemma {:induction false} TrimStartKeeps(s: string, k: nat)
    requires k < |s| && !IsSpace(s[k])
    ensures |TrimStart(s)| >= |s| - k
    decreases |s|
  {
    if k > 0 && IsSpace(s[0]) {
      assert s[1..][k - 1] == s[k];
      TrimStartKeeps(s[1..], k - 1);
    }
  }

  /** A character that is not white space survives `TrimEnd`. */
  lemma {:induction false} TrimEndKeeps(s: string, k: nat)
    requires k < |s| && !IsSpace(s[k])
    ensures |TrimEnd(s)| > k
    decreases |s|
  {
    if k < |s| - 1 && IsSpace(s[|s| - 1]) {
      assert s[..|s| - 1][k] == s[k];
      TrimEndKeeps(s[..|s| - 1], k);
    }
  }

  /** A string trims to "" exactly when every character of it is white space. */
  lemma TrimEmptyIffAllSpace(s: string)
    ensures Trim(s) == "" <==> AllSpace(s)
  {
    if AllSpace(s) {
      TrimStartOfSpace(s);
    } else {
      var k :| 0 <= k < |s| && !IsSpace(s[k]);
      TrimStartKeeps(s, k);
      var t := TrimStart(s);
      TrimEndKeeps(t, 0);
    }
  }

  // ---------------------------------------------------------------------------
  // split / join

  /** `s.split(c)` for a one-character separator: always at least one part. */
  function Split(s: string, c: char): (parts: seq<string>)
    ensures |parts| >= 1
    ensures forall i :: 0 <= i < |parts| ==> c !in parts[i]
    decreases |s|
  {
    if |s| == 0 then [""]
    else
      var rest := Split(s[1..], c);
      if s[0] == c then [""] + rest
      else [[s[0]] + rest[0]] + rest[1..]
  }

  /** `parts.join(sep)`. */
  function Join(parts: seq<string>, sep: string): string
    decreases |parts|
  {
    if |parts| == 0 then ""
    else if |parts| == 1 then parts[0]
    else parts[0] + sep + Join(parts[1..], sep)
  }

  /** Joining the parts of a split with the separator gives back the string. */
  lemma {:induction false} JoinSplit(s: string, c: char)
    ensures Join(Split(s, c), [c]) == s
    decreases |s|
  {
    if |s| > 0 {
      var rest := Split(s[1..], c);
      JoinSplit(s[1..], c);
      if s[0] == c {
        assert Split(s, c) == [""] + rest;
        assert Join([""] + rest, [c]) == "" + [c] + Join(rest, [c]);
        assert [s[0]] + s[1..] == s;
      } else {
        var parts := [[s[0]] + rest[0]] + rest[1..];
        if |rest| == 1 {
          assert Join(parts, [c]) == [s[0]] + rest[0];
          assert Join(rest, [c]) == rest[0];
        } else {
          assert parts[1..] == rest[1..];
          assert Join(rest, [c]) == rest[0] + [c] + Join(rest[1..], [c]);
        }
        assert [s[0]] + s[1..] == s;
      }
    }
  }

  /** A string with no separator splits into itself alone. */
  lemma {:induction false} SplitNoSeparator(a: string, c: char)
    requires c !in a
    ensures Split(a, c) == [a]
    decreases |a|
  {
    if |a| > 0 {
      assert a == [a[0]] + a[1..];
      SplitNoSeparator(a[1..], c);
      assert [a[0]] + a[1..] == a;
    }
  }

  /** The first separator of a string ends its first part. */
  lemma {:induction false} SplitAtSeparator(a: string, c: char, b: string)
    requires c !in a
    ensures Split(a + [c] + b, c) == [a] + Split(b, c)
    decreases |a|
  {
    var s := a + [c] + b;
    if |a| == 0 {
      assert s[0] == c && s[1..] == b;
    } else {
      assert s[1..] == a[1..] + [c] + b;
      assert a == [a[0]] + a[1..];
      SplitAtSeparator(a[1..], c, b);
      assert [a[0]] + a[1..] == a;
    }
  }

  /** Splitting a join of separator-free parts gives back the parts. */
  lemma {:induction false} SplitJoin(parts: seq<string>, c: char)
    requires |parts| >= 1
    requires forall i :: 0 <= i < |parts| ==> c !in parts[i]
    ensures Split(Join(parts, [c]), c) == parts
    decreases |parts|
  {
    if |parts| == 1 {
      SplitNoSeparator(parts[0], c);
    } else {
      SplitJoin(parts[1..], c);
      SplitAtSeparator(parts[0], c, Join(parts[1..], [c]));
      assert [parts[0]] + parts[1..] == parts;
    }
  }

  // ---------------------------------------------------------------------------
  // Substrings, prefixes, suffixes

  predicate IsPrefix(p: string, s: string) {
    |p| <= |s| && s[..|p|] == p
  }

  predicate IsSuffix(p: string, s: string) {
    |p| <= |s| && s[|s| - |p|..] == p
  }

  /** `text.includes(p)`: `p` occurs in `text` at some position. */
  function Contains(text: string, p: string): bool
    decreases |text|
  {
    IsPrefix(p, text) || (|text| > 0 && Contains(text[1..], p))
  }

  /** An occurrence at position `i` makes `Contains` true. */
  lemma {:induction false} ContainsAt(text: string, p: string, i: nat)
    requires i + |p| <= |text| && text[i..i + |p|] == p
    ensures Contains(text, p)
    decreases i
  {
    if i > 0 {
      assert text[1..][i - 1..i - 1 + |p|] == p;
      ContainsAt(text[1..], p, i - 1);
    }
  }

  // ---------------------------------------------------------------------------
  // Case folding (ASCII only)

  function LowerChar(c: char): char {
    if 'A' <= c <= 'Z' then (c as int - 'A' as int + 'a' as int) as char else c
  }

  /** `s.toLowerCase()` restricted to ASCII letters. */
  function Lower(s: string): (r: string)
    ensures |r| == |s| && forall i :: 0 <= i < |s| ==> r[i] == LowerChar(s[i])
  {
    seq(|s|, i requires 0 <= i < |s| => LowerChar(s[i]))
  }

  // ---------------------------------------------------------------------------
  // Lexicographic order of strings (JavaScript `<` on strings)

  /** `a < b` on strings: a proper prefix, or smaller at the first difference. */
  function Less(a: string, b: string): bool
    decreases |a|
  {
    if |a| == 0 then |b| > 0
    else if |b| == 0 then false
    else if a[0] == b[0] then Less(a[1..], b[1..])
    else a[0] < b[0]
  }

  lemma {:induction false} LessIrreflexive(a: string)
    ensures !Less(a, a)
    decreases |a|
  {
    if |a| > 0 { LessIrreflexive(a[1..]); }
  }

  lemma {:induction false} LessTransitive(a: string, b: string, c: string)
    requires Less(a, b) && Less(b, c)
    ensures Less(a, c)
    decreases |a|
  {
    if |a| > 0 && a[0] == b[0] && b[0] == c[0] {
      LessTransitive(a[1..], b[1..], c[1..]);
    }
  }

  lemma {:induction false} LessTotal(a: string, b: string)
    requires a != b
    ensures Less(a, b) || Less(b, a)
    decreases |a|
  {
    if |a| > 0 && |b| > 0 && a[0] == b[0] {
      assert a[1..] != b[1..] by {
        assert a == [a[0]] + a[1..] && b == [b[0]] + b[1..];
      }
      LessTotal(a[1..], b[1..]);
    }
  }

  lemma LessAsymmetric(a: string, b: string)
    requires Less(a, b)
    ensures !Less(b, a)
  {
    if Less(b, a) {
      LessTransitive(a, b, a);
      LessIrreflexive(a);
    }
  }

  // ---------------------------------------------------------------------------
  // Decimal text of integers (`String(n)`, template interpolation)

  predicate IsDigit(c: char) {
    '0' <= c <= '9'
  }

  function DigitChar(d: nat): (c: char)
    requires d < 10
    ensures IsDigit(c)
  {
    ('0' as int + d) as char
  }

  function DigitValue(c: char): nat
    requires IsDigit(c)
  {
    c as int - '0' as int
  }

  predicate AllDigits(s: string) {
    forall i :: 0 <= i < |s| ==> IsDigit(s[i])
  }

  /** Decimal text of a natural number, without leading zeros. */
  function NatText(n: nat): (s: string)
    ensures |s| >= 1 && AllDigits(s)
    ensures s[0] == '0' ==> n == 0
  {
    if n < 10 then [DigitChar(n)] else NatText(n / 10) + [DigitChar(n % 10)]
  }

  /** Decimal text of an integer, with a leading '-' when negative. */
  function IntText(n: int): (s: string)
    ensures |s| >= 1
  {
    if n < 0 then "-" + NatText(-n) else NatText(n)
  }

  /** The value of a string of decimal digits. */
  function DigitsValue(s: string): nat
    requires AllDigits(s)
  {
    if |s| == 0 then 0 else DigitsValue(s[..|s| - 1]) * 10 + DigitValue(s[|s| - 1])
  }

  lemma {:induction false} DigitsValueOfNatText(n: nat)
    ensures DigitsValue(NatText(n)) == n
  {
    if n >= 10 {
      var s := NatText(n);
      assert s[..|s| - 1] == NatText(n / 10);
      DigitsValueOfNatText(n / 10);
    }
  }

  // ---------------------------------------------------------------------------
  // parseInt (no radix argument)

  predicate IsHexDigit(c: char) {
    IsDigit(c) || ('a' <= c <= 'f') || ('A' <= c <= 'F')
  }

  function HexValue(c: char): (v: nat)
    requires IsHexDigit(c)
    ensures v < 16
  {
    if IsDigit(c) then DigitValue(c)
    else if 'a' <= c <= 'f' then c as int - 'a' as int + 10
    else c as int - 'A' as int + 10
  }

  /** Length of the longest prefix of `s` whose characters satisfy the radix. */
  function DigitRun(s: string, hex: bool): (k: nat)
    ensures k <= |s|
    ensures forall i :: 0 <= i < k ==> (if hex then IsHexDigit(s[i]) else IsDigit(s[i]))
    ensures k < |s| ==> !(if hex then IsHexDigit(s[k]) else IsDigit(s[k]))
    decreases |s|
  {
    if |s| > 0 && (if hex then IsHexDigit(s[0]) else IsDigit(s[0])) then 1 + DigitRun(s[1..], hex) else 0
  }

  function RunValue(s: string, hex: bool): nat
    requires forall i :: 0 <= i < |s| ==> (if hex then IsHexDigit(s[i]) else IsDigit(s[i]))
  {
    if |s| == 0 then 0
    else
      var d := if hex then HexValue(s[|s| - 1]) else DigitValue(s[|s| - 1]);
      RunValue(s[..|s| - 1], hex) * (if hex then 16 else 10) + d
  }

  /**
    `parseInt(s)`: skip leading white space, take an optional sign, then a
    "0x"/"0X" prefix selects radix 16; the value is that of the longest run of
    digits that follows, and there is no number (`NaN`) when that run is empty.
   */
  function ParseInt(s: string): Option<int>
  {
    var t := TrimStart(s);
    if |t| > 0 && t[0] == '-' then
      match ParseUnsigned(t[1..])
      case None => None
      case Some(v) => var r: Option<int> := Some(-(v as int)); r
    else if |t| > 0 && t[0] == '+' then ParseUnsigned(t[1..])
    else ParseUnsigned(t)
  }

  /** The digits part of `parseInt`, after white space and sign. */
  function ParseUnsigned(u: string): Option<nat>
  {
    var hex := |u| >= 2 && u[0] == '0' && (u[1] == 'x' || u[1] == 'X');
    var v := if hex then u[2..] else u;
    var k := DigitRun(v, hex);
    if k == 0 then None else Some(RunValue(v[..k], hex))
  }

  lemma ParseUnsignedNatText(m: nat)
    ensures ParseUnsigned(NatText(m)) == Some(m)
  {
    var d := NatText(m);
    RunIsWholeDigits(d);
    DigitsValueOfNatText(m);
    RunValueDecimal(d);
    assert d[..|d|] == d;
    assert |d| >= 2 ==> d[1] != 'x' && d[1] != 'X';
  }

  /** `parseInt` reads back the decimal text of every integer. */
  lemma ParseIntText(n: int)
    ensures ParseInt(IntText(n)) == Some(n)
  {
    var m: nat := if n < 0 then -n else n;
    var d := NatText(m);
    ParseUnsignedNatText(m);
    assert !IsSpace(d[0]);
    if n < 0 {
      var s := "-" + d;
      assert IntText(n) == s;
      assert TrimStart(s) == s;
      assert s[1..] == d;
    } else {
      assert IntText(n) == d;
      assert TrimStart(d) == d;
    }
  }

  lemma {:induction false} RunIsWholeDigits(d: string)
    requires AllDigits(d)
    ensures DigitRun(d, false) == |d|
    decreases |d|
  {
    if |d| > 0 { RunIsWholeDigits(d[1..]); }
  }

  lemma {:induction false} RunValueDecimal(d: string)
    requires AllDigits(d)
    ensures RunValue(d, false) == DigitsValue(d)
    decreases |d|
  {
    if |d| > 0 {
      assert d[..|d|][..|d| - 1] == d[..|d| - 1];
      RunValueDecimal(d[..|d| - 1]);
    }
    assert d[..|d|] == d;
  }

  // ---------------------------------------------------------------------------
  // Hex encoding of bytes (Node `Buffer` "hex")

  type Byte = x: int | 0 <= x < 256

  function HexChar(d: nat): (c: char)
    requires d < 16
    ensures IsHexDigit(c) && HexValue(c) == d && c != '.'
  {
    if d < 10 then DigitChar(d) else ('a' as int + d - 10) as char
  }

  /** `buf.toString("hex")`: two lower-case hex digits per byte. */
  function HexEncode(b: seq<Byte>): (s: string)
    ensures |s| == 2 * |b|
    ensures forall i :: 0 <= i < |s| ==> IsHexDigit(s[i]) && s[i] != '.'
  {
    if |b| == 0 then "" else [HexChar(b[0] / 16), HexChar(b[0] % 16)] + HexEncode(b[1..])
  }

  /**
    `Buffer.from(s, "hex")`: decodes pairs of hex digits from the start and
    stops at the first pair that is not two hex digits (a trailing odd
    character is dropped).
   */
  function HexDecode(s: string): (b: seq<Byte>)
    ensures |b| <= |s| / 2
    decreases |s|
  {
    if |s| >= 2 && IsHexDigit(s[0]) && IsHexDigit(s[1]) then
      [HexValue(s[0]) * 16 + HexValue(s[1])] + HexDecode(s[2..])
    else []
  }

  /** Hex decoding inverts hex encoding. */
  lemma {:induction false} HexRoundTrip(b: seq<Byte>)
    ensures HexDecode(HexEncode(b)) == b
  {
    if |b| > 0 {
      var s := HexEncode(b);
      assert s[2..] == HexEncode(b[1..]);
      HexRoundTrip(b[1..]);
      assert [b[0]] + b[1..] == b;
    }
  }
}
