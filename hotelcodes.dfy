/**
  The list of unused hotel codes: the three-digit, zero-padded codes
  000 to 999 that no hotel has, in ascending order, at most 100 of them.
 */
module HotelCodes {
  import opened Text
  import opened Seqs

  /** PostgreSQL `lpad(s, width, fill)`: pad on the left, or cut to `width`. */
  function Lpad(s: string, width: nat, fill: char): (r: string)
    ensures |r| == width
  {
    if |s| >= width then s[..width] else seq(width - |s|, _ => fill) + s
  }

  /** A text at least `width` long is cut to its first `width` characters; a shorter one follows fill characters. */
  lemma LpadContents(s: string, width: nat, fill: char)
    ensures |s| >= width ==> Lpad(s, width, fill) == s[..width]
    ensures |s| < width ==> Lpad(s, width, fill)[width - |s|..] == s
                            && forall i :: 0 <= i < width - |s| ==> Lpad(s, width, fill)[i] == fill
  {
  }

  /** `lpad(n::text, 3, '0')`. */
  function Code(n: nat): string
    requires n < 1000
  {
    Lpad(NatText(n), 3, '0')
  }

  /** The code of `n` is its three decimal digits, hundreds first. */
  lemma CodeDigits(n: nat)
    requires n < 1000
    ensures Code(n) == [DigitChar(n / 100), DigitChar(n / 10 % 10), DigitChar(n % 10)]
  {
    if n < 10 {
      assert NatText(n) == [DigitChar(n)];
    } else if n < 100 {
      assert NatText(n / 10) == [DigitChar(n / 10)];
      assert NatText(n) == [DigitChar(n / 10), DigitChar(n % 10)];
    } else {
      assert NatText(n / 100) == [DigitChar(n / 100)];
      assert NatText(n / 10) == [DigitChar(n / 100), DigitChar(n / 10 % 10)];
      assert NatText(n) == [DigitChar(n / 100), DigitChar(n / 10 % 10), DigitChar(n % 10)];
    }
  }

  /** Every code is three digits whose value is the number. */
  lemma CodeIsThreeDigits(n: nat)
    requires n < 1000
    ensures |Code(n)| == 3 && AllDigits(Code(n)) && DigitsValue(Code(n)) == n
  {
    CodeDigits(n);
    var c := Code(n);
    assert DigitValue(c[0]) == n / 100 && DigitValue(c[1]) == n / 10 % 10 && DigitValue(c[2]) == n % 10;
    ThreeDigitsValue(c);
    DigitsRebuild(n);
  }

  /** The value of three digits, hundreds first. */
  lemma ThreeDigitsValue(c: string)
    requires |c| == 3 && AllDigits(c)
    ensures DigitsValue(c) == (DigitValue(c[0]) * 10 + DigitValue(c[1])) * 10 + DigitValue(c[2])
  {
    assert c[..2] == [c[0], c[1]] && c[..2][..1] == [c[0]] && c[..2][..1][..0] == [];
    assert DigitsValue(c[..2][..1]) == DigitValue(c[0]);
    assert DigitsValue(c[..2]) == DigitValue(c[0]) * 10 + DigitValue(c[1]);
  }

  /** A number below 1000 from its hundreds, tens and units. */
  lemma DigitsRebuild(n: nat)
    requires n < 1000
    ensures (n / 100 * 10 + n / 10 % 10) * 10 + n % 10 == n
  {
    assert n / 10 == n / 100 * 10 + n / 10 % 10;
  }

  /** Of two numbers below 1000, the smaller has the smaller digit at the first place they differ. */
  lemma DigitsOrder(a: nat, b: nat)
    requires a < b < 1000
    ensures || a / 100 < b / 100
            || (a / 100 == b / 100 && a / 10 % 10 < b / 10 % 10)
            || (a / 100 == b / 100 && a / 10 % 10 == b / 10 % 10 && a % 10 < b % 10)
  {
    assert a / 10 <= b / 10;
    assert a / 100 == a / 10 / 10 && b / 100 == b / 10 / 10;
    if a / 10 == b / 10 {
      assert a % 10 < b % 10;
    } else if a / 100 == b / 100 {
      assert a / 10 % 10 < b / 10 % 10;
    }
  }

  /** Text order on three-character strings is order by the first differing character. */
  lemma LessThree(x: string, y: string)
    requires |x| == 3 && |y| == 3
    requires || x[0] < y[0]
             || (x[0] == y[0] && x[1] < y[1])
             || (x[0] == y[0] && x[1] == y[1] && x[2] < y[2])
    ensures Less(x, y)
  {
    assert x[1..][0] == x[1] && y[1..][0] == y[1];
    assert x[1..][1..] == [x[2]] && y[1..][1..] == [y[2]];
  }

  /** `ORDER BY code` is numeric order: text order of codes agrees with the numbers. */
  lemma CodeOrder(a: nat, b: nat)
    requires a < b < 1000
    ensures Less(Code(a), Code(b))
  {
    CodeDigits(a);
    CodeDigits(b);
    DigitsOrder(a, b);
    LessThree(Code(a), Code(b));
  }

  /**
    The free numbers from `n` on, ascending, at most `budget` of them: the
    `NOT IN` filter and the `LIMIT` applied to the series `n..999`.
   */
  function FreeNumbers(n: nat, taken: set<string>, budget: nat): (r: seq<nat>)
    requires n <= 1000
    ensures |r| <= budget
    ensures forall i :: 0 <= i < |r| ==> n <= r[i] < 1000 && Code(r[i]) !in taken
    ensures forall i, j :: 0 <= i < j < |r| ==> r[i] < r[j]
    decreases 1000 - n
  {
    if n == 1000 || budget == 0 then []
    else if Code(n) in taken then FreeNumbers(n + 1, taken, budget)
    else [n] + FreeNumbers(n + 1, taken, budget - 1)
  }

  /**
    Nothing free is skipped: a free number missing from the list lies beyond
    every listed one, and then the list is full.
   */
  lemma {:induction false} FreeNumbersComplete(n: nat, taken: set<string>, budget: nat, k: nat)
    requires n <= k < 1000 && Code(k) !in taken
    ensures var r := FreeNumbers(n, taken, budget);
      k !in r ==> |r| == budget && forall i :: 0 <= i < |r| ==> r[i] < k
    decreases 1000 - n
  {
    var r := FreeNumbers(n, taken, budget);
    if budget > 0 && k == n {
      assert r[0] == k;
    } else if budget > 0 && Code(n) in taken {
      FreeNumbersComplete(n + 1, taken, budget, k);
      assert r == FreeNumbers(n + 1, taken, budget);
    } else if budget > 0 {
      var rest := FreeNumbers(n + 1, taken, budget - 1);
      FreeNumbersComplete(n + 1, taken, budget - 1, k);
      assert r == [n] + rest;
      PrependBelow(n, rest, k, budget);
    }
  }

  /** Putting a smaller number in front of a full list below `k` gives a full list below `k`. */
  lemma PrependBelow(n: nat, rest: seq<nat>, k: nat, budget: nat)
    requires n < k && budget > 0
    requires k !in rest ==> |rest| == budget - 1 && forall i :: 0 <= i < |rest| ==> rest[i] < k
    ensures k !in [n] + rest ==> |[n] + rest| == budget && forall i :: 0 <= i < |[n] + rest| ==> ([n] + rest)[i] < k
  {
    if k !in [n] + rest {
      assert k !in rest;
    }
  }

  /**
    The codes a successful query lists, for the codes in use: three-digit,
    unused, strictly ascending, and at most 100.
   */
  function AvailableCodes(taken: set<string>): (r: seq<string>)
    ensures |r| <= 100
    ensures forall i :: 0 <= i < |r| ==> |r[i]| == 3 && AllDigits(r[i]) && r[i] !in taken
    ensures StrictlyAscending(r)
  {
    var ns := FreeNumbers(0, taken, 100);
    CodesOfAscending(ns);
    seq(|ns|, i requires 0 <= i < |ns| => Code(ns[i]))
  }

  /** The codes of ascending numbers below 1000 are three digits and ascend as text. */
  lemma CodesOfAscending(ns: seq<nat>)
    requires forall i :: 0 <= i < |ns| ==> ns[i] < 1000
    requires forall i, j :: 0 <= i < j < |ns| ==> ns[i] < ns[j]
    ensures forall i :: 0 <= i < |ns| ==> |Code(ns[i])| == 3 && AllDigits(Code(ns[i]))
    ensures forall i, j :: 0 <= i < j < |ns| ==> Less(Code(ns[i]), Code(ns[j]))
  {
    forall i | 0 <= i < |ns| ensures |Code(ns[i])| == 3 && AllDigits(Code(ns[i])) {
      CodeIsThreeDigits(ns[i]);
    }
    forall i, j | 0 <= i < j < |ns| ensures Less(Code(ns[i]), Code(ns[j])) {
      CodeOrder(ns[i], ns[j]);
    }
  }

  /**
    Every unused code is listed unless the list already holds 100 smaller
    ones: the result is the first 100 unused codes.
   */
  lemma AvailableCodesComplete(taken: set<string>, k: nat)
    requires k < 1000 && Code(k) !in taken
    ensures var r := AvailableCodes(taken);
      Code(k) in r || (|r| == 100 && forall i :: 0 <= i < |r| ==> Less(r[i], Code(k)))
  {
    var ns := FreeNumbers(0, taken, 100);
    var r := AvailableCodes(taken);
    FreeNumbersComplete(0, taken, 100, k);
    if k in ns {
      var i :| 0 <= i < |ns| && ns[i] == k;
      assert r[i] == Code(k);
    } else {
      forall i | 0 <= i < |r| ensures Less(r[i], Code(k)) {
        CodeOrder(ns[i], k);
      }
    }
  }
}
