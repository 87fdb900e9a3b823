/** The sequence-number prefix of screenshot file names,
    `f"{screenshot_count:03}_..."` (app.py, line 69), and the lexicographic
    order in which `sorted(glob(...))` lists the files (app.py, line 91). */
module Naming {

  /** A decimal digit character. */
  predicate IsDigit(c: char)
  {
    '0' <= c <= '9'
  }

  predicate AllDigits(s: string)
  {
    forall i :: 0 <= i < |s| ==> IsDigit(s[i])
  }

  /** The character of a single digit. */
  function DigitChar(d: nat): (c: char)
    requires d < 10
    ensures IsDigit(c)
    ensures c as int - '0' as int == d
  {
    ['0', '1', '2', '3', '4', '5', '6', '7', '8', '9'][d]
  }

  /** The plain decimal rendering of a number, `str(n)`. */
  function Decimal(n: nat): (s: string)
    ensures AllDigits(s) && |s| >= 1
    ensures n < 10 ==> |s| == 1
    ensures |s| > 1 ==> s[0] != '0'
    ensures n >= 10 ==> |s| >= 2
    ensures n >= 100 ==> |s| >= 3
    ensures n >= 1000 ==> |s| >= 4
  {
    if n < 10 then [DigitChar(n)] else Decimal(n / 10) + [DigitChar(n % 10)]
  }

  /** `format(n, "03")`: three digits with leading zeros below 1000, all the
      digits otherwise (the width is a minimum, never a truncation). */
  function Format03(n: nat): (s: string)
    ensures AllDigits(s)
    ensures n < 1000 <==> |s| == 3
    ensures |s| > 3 ==> s[0] != '0'
  {
    if n < 1000 then [DigitChar(n / 100), DigitChar(n / 10 % 10), DigitChar(n % 10)]
    else Decimal(n)
  }

  /** Reading a digit string back as a number, most significant digit first. */
  function Value(s: string): nat
    requires AllDigits(s)
    decreases |s|
  {
    if s == [] then 0
    else Value(s[..|s| - 1]) * 10 + (s[|s| - 1] as int - '0' as int)
  }

  /** Decimal rendering and reading are inverse. */
  lemma {:induction false} DecimalRoundTrip(n: nat)
    ensures Value(Decimal(n)) == n
    decreases n
  {
    if n >= 10 {
      DecimalRoundTrip(n / 10);
      var s := Decimal(n);
      assert s[..|s| - 1] == Decimal(n / 10);
    }
  }

  /** The prefix names its sequence number: reading it back gives `n`. */
  lemma Format03RoundTrip(n: nat)
    ensures Value(Format03(n)) == n
  {
    if n < 1000 {
      var s := Format03(n);
      var a, b, c := n / 100, n / 10 % 10, n % 10;
      assert s == [DigitChar(a), DigitChar(b), DigitChar(c)];
      assert s[..2] == [DigitChar(a), DigitChar(b)];
      assert s[..2][..1] == [DigitChar(a)];
      assert [DigitChar(a)][..0] == [];
      assert Value([DigitChar(a)]) == a;
      assert Value(s[..2]) == a * 10 + b;
      assert Value(s) == (a * 10 + b) * 10 + c;
    } else {
      DecimalRoundTrip(n);
    }
  }

  /** Python's string `<`: the first differing character decides, and a proper
      prefix comes first. */
  predicate LexLess(a: string, b: string)
  {
    exists i :: 0 <= i <= |a| && i <= |b| && a[..i] == b[..i] &&
      ((i == |a| && i < |b|) || (i < |a| && i < |b| && a[i] < b[i]))
  }

  /** A name that starts with the prefix of `n` followed by an underscore
      (app.py, line 69; the minutes part is any string). */
  function FileName(n: nat, rest: string): string
  {
    Format03(n) + "_" + rest
  }

  /** Below 1000 the order of names agrees with the order of sequence numbers,
      whatever follows the underscore. */
  lemma NamesOrderedByNumber(n: nat, m: nat, a: string, b: string)
    requires n < m < 1000
    ensures LexLess(FileName(n, a), FileName(m, b))
  {
    var x := FileName(n, a);
    var y := FileName(m, b);
    assert x[..3] == Format03(n) && y[..3] == Format03(m);
    DigitsOrdered(n, m);
    if n / 100 < m / 100 {
      LexLessAt(x, y, 0);
    } else if n / 10 % 10 < m / 10 % 10 {
      assert x[..1] == x[..3][..1] && y[..1] == y[..3][..1];
      LexLessAt(x, y, 1);
    } else {
      assert x[..2] == x[..3][..2] && y[..2] == y[..3][..2];
      LexLessAt(x, y, 2);
    }
  }

  /** Of two three-digit numbers, the smaller one has the smaller digit at the
      first position where they differ. */
  lemma DigitsOrdered(n: nat, m: nat)
    requires n < m < 1000
    ensures n / 100 <= m / 100
    ensures n / 100 == m / 100 ==> n / 10 % 10 <= m / 10 % 10
    ensures n / 100 == m / 100 && n / 10 % 10 == m / 10 % 10 ==> n % 10 < m % 10
  {
    assert n == n / 100 * 100 + n / 10 % 10 * 10 + n % 10;
    assert m == m / 100 * 100 + m / 10 % 10 * 10 + m % 10;
  }

  /** Strings that agree up to position `i` and differ there are ordered by
      that position. */
  lemma LexLessAt(x: string, y: string, i: nat)
    requires i < |x| && i < |y| && x[..i] == y[..i] && x[i] < y[i]
    ensures LexLess(x, y)
  {
  }

  /** So the names of screenshots numbered 0, 1, ..., n - 1 with n <= 1000,
      listed in emission order, are already in `sorted` order. */
  lemma EmissionOrderIsSorted(rests: seq<string>)
    requires |rests| <= 1000
    ensures forall i, j :: 0 <= i < j < |rests| ==>
      LexLess(FileName(i, rests[i]), FileName(j, rests[j]))
  {
    forall i, j | 0 <= i < j < |rests|
      ensures LexLess(FileName(i, rests[i]), FileName(j, rests[j]))
    {
      NamesOrderedByNumber(i, j, rests[i], rests[j]);
    }
  }

  /** Past 999 the order breaks: the thousandth screenshot's name sorts before
      the name of the one written just before it. */
  lemma OrderBreaksAtThousand(a: string, b: string)
    ensures LexLess(FileName(1000, a), FileName(999, b))
  {
    var x := FileName(1000, a);
    var y := FileName(999, b);
    assert Format03(1000) == Decimal(1000);
    assert x[0] == '1' && y[0] == '9';
    LexLessAt(x, y, 0);
  }
}
