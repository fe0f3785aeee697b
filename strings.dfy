/** String operations the splitter and the bot rely on: substring tests
    (Python's `in`, and `str.rfind`, on which the model of `rsplit` rests), Python's
    ordering of `str` values, ASCII lower-casing and zero-padded decimals
    (the `%03d` of the segment muxer's output pattern). */
module Strings {

  /** `pat` occurs in `s` starting at index `k`. */
  predicate OccursAt(s: string, pat: string, k: int) {
    0 <= k && k + |pat| <= |s| && s[k..k + |pat|] == pat
  }

  /** Python's `pat in s`. */
  predicate Contains(s: string, pat: string) {
    exists k | 0 <= k <= |s| - |pat| :: OccursAt(s, pat, k)
  }

  /** The last occurrence of `pat` at an index no greater than `k`, or -1. */
  function RFindAtOrBelow(s: string, pat: string, k: int): (r: int)
    decreases k + 1
    ensures r == -1 || (0 <= r <= k && OccursAt(s, pat, r))
    ensures forall j :: r < j <= k ==> !OccursAt(s, pat, j)
  {
    if k < 0 then -1
    else if OccursAt(s, pat, k) then k
    else RFindAtOrBelow(s, pat, k - 1)
  }

  /** Python's `s.rfind(pat)`: the index of the last occurrence of `pat`, or -1. */
  function RFind(s: string, pat: string): (r: int)
    ensures r == -1 || OccursAt(s, pat, r)
    ensures forall j :: r < j ==> !OccursAt(s, pat, j)
    ensures r >= 0 <==> Contains(s, pat)
  {
    RFindAtOrBelow(s, pat, |s| - |pat|)
  }

  /** Python's `a <= b` on `str`: code points compared left to right, and a
      proper prefix comes first. */
  predicate LessEq(a: string, b: string)
    decreases |a|
  {
    if a == [] then true
    else if b == [] then false
    else if a[0] != b[0] then a[0] < b[0]
    else LessEq(a[1..], b[1..])
  }

  lemma {:induction false} LessEqReflexive(a: string)
    ensures LessEq(a, a)
  {
    if a != [] { LessEqReflexive(a[1..]); }
  }

  lemma {:induction false} LessEqAntisymmetric(a: string, b: string)
    requires LessEq(a, b) && LessEq(b, a)
    ensures a == b
  {
    if a != [] && b != [] {
      LessEqAntisymmetric(a[1..], b[1..]);
      assert a == [a[0]] + a[1..] && b == [b[0]] + b[1..];
    }
  }

  lemma {:induction false} LessEqTransitive(a: string, b: string, c: string)
    requires LessEq(a, b) && LessEq(b, c)
    ensures LessEq(a, c)
  {
    if a != [] && b != [] && c != [] && a[0] == b[0] == c[0] {
      LessEqTransitive(a[1..], b[1..], c[1..]);
    }
  }

  lemma {:induction false} LessEqTotal(a: string, b: string)
    ensures LessEq(a, b) || LessEq(b, a)
  {
    if a != [] && b != [] && a[0] == b[0] {
      LessEqTotal(a[1..], b[1..]);
    }
  }

  /** A common prefix does not change how two strings compare. */
  lemma {:induction false} LessEqCommonPrefix(p: string, a: string, b: string)
    ensures LessEq(p + a, p + b) <==> LessEq(a, b)
  {
    if p != [] {
      assert (p + a)[1..] == p[1..] + a;
      assert (p + b)[1..] == p[1..] + b;
      LessEqCommonPrefix(p[1..], a, b);
    } else {
      assert p + a == a && p + b == b;
    }
  }

  /** Two non-empty strings compare by their first characters, and by the rest when those agree. */
  lemma LessEqCons(c: char, d: char, a: string, b: string)
    ensures LessEq([c] + a, [d] + b) <==> c < d || (c == d && LessEq(a, b))
  {
    assert ([c] + a)[1..] == a && ([d] + b)[1..] == b;
  }

  /** Python's `str.lower()` on one character, for the ASCII range. */
  function LowerChar(c: char): (r: char)
    ensures 'A' <= c <= 'Z' ==> 'a' <= r <= 'z' && r as int - c as int == 32
    ensures !('A' <= c <= 'Z') ==> r == c
  {
    if 'A' <= c <= 'Z' then (c as int + 32) as char else c
  }

  /** Python's `str.lower()`, for the ASCII range. */
  function ToLower(s: string): (r: string)
    ensures |r| == |s|
    ensures forall i :: 0 <= i < |s| ==> r[i] == LowerChar(s[i])
  {
    seq(|s|, i requires 0 <= i < |s| => LowerChar(s[i]))
  }

  /** Lower-casing twice is lower-casing once. */
  lemma ToLowerIdempotent(s: string)
    ensures ToLower(ToLower(s)) == ToLower(s)
  {
    forall i | 0 <= i < |s| ensures ToLower(ToLower(s))[i] == ToLower(s)[i] {
      assert ToLower(s)[i] == LowerChar(s[i]);
    }
  }

  predicate IsDigit(c: char) {
    '0' <= c <= '9'
  }

  function DigitChar(d: int): (c: char)
    requires 0 <= d < 10
    ensures IsDigit(c) && c as int - '0' as int == d
  {
    ('0' as int + d) as char
  }

  /** The decimal numeral of `n`, without leading zeros (C's `%d`). */
  function Decimal(n: nat): (s: string)
    decreases n
  {
    if n < 10 then [DigitChar(n)] else Decimal(n / 10) + [DigitChar(n % 10)]
  }

  /** `s` preceded by as many '0' as bring it to `width` characters (C's `%0<width>d`). */
  function ZeroPad(s: string, width: nat): (r: string)
  {
    if |s| >= width then s else seq(width - |s|, _ => '0') + s
  }

  /** C's `%03d` for a non-negative number. */
  function Pad3(n: nat): (s: string)
  {
    ZeroPad(Decimal(n), 3)
  }

  lemma {:induction false} DecimalDigits(n: nat)
    ensures |Decimal(n)| >= 1
    ensures forall i :: 0 <= i < |Decimal(n)| ==> IsDigit(Decimal(n)[i])
    ensures n >= 10 ==> |Decimal(n)| >= 2
    ensures n >= 100 ==> |Decimal(n)| >= 3
    ensures n >= 1000 ==> |Decimal(n)| >= 4
  {
    if n >= 10 {
      DecimalDigits(n / 10);
      assert n >= 100 ==> n / 10 >= 10;
      assert n >= 1000 ==> n / 10 >= 100;
    }
  }

  /** Whatever the number, every character of its `%03d` field is a digit. */
  lemma Pad3Digits(n: nat)
    ensures forall k :: 0 <= k < |Pad3(n)| ==> IsDigit(Pad3(n)[k])
  {
    DecimalDigits(n);
    var d := Decimal(n);
    if |d| < 3 {
      var zeros := seq(3 - |d|, _ => '0');
      assert Pad3(n) == zeros + d;
      assert forall k :: 0 <= k < |Pad3(n)| ==> Pad3(n)[k] == if k < |zeros| then '0' else d[k - |zeros|];
    }
  }

  /** Below 1000, `%03d` gives exactly the hundreds, tens and units digits. */
  lemma Pad3Small(n: nat)
    requires n < 1000
    ensures Pad3(n) == [DigitChar(n / 100), DigitChar(n / 10 % 10), DigitChar(n % 10)]
  {
    if n < 10 {
      assert Decimal(n) == [DigitChar(n)];
    } else if n < 100 {
      assert Decimal(n / 10) == [DigitChar(n / 10)];
    } else {
      assert Decimal(n / 100) == [DigitChar(n / 100)];
      assert Decimal(n / 10) == [DigitChar(n / 100), DigitChar(n / 10 % 10)];
    }
  }

  /** From 1000 on, `%03d` adds no padding: the field is the plain numeral, 4 or more digits. */
  lemma Pad3Large(n: nat)
    requires n >= 1000
    ensures Pad3(n) == Decimal(n) && |Pad3(n)| >= 4
  {
    DecimalDigits(n);
  }

  /** Below 1000, the padded fields of two numbers, followed by the same
      text, compare as the numbers do. */
  lemma Pad3Order(i: nat, j: nat, tail: string)
    requires i < 1000 && j < 1000
    ensures LessEq(Pad3(i) + tail, Pad3(j) + tail) <==> i <= j
  {
    Pad3Small(i);
    Pad3Small(j);
    var i2, i1, i0 := DigitChar(i / 100), DigitChar(i / 10 % 10), DigitChar(i % 10);
    var j2, j1, j0 := DigitChar(j / 100), DigitChar(j / 10 % 10), DigitChar(j % 10);
    assert Pad3(i) + tail == [i2] + ([i1] + ([i0] + tail));
    assert Pad3(j) + tail == [j2] + ([j1] + ([j0] + tail));
    LessEqCons(i2, j2, [i1] + ([i0] + tail), [j1] + ([j0] + tail));
    LessEqCons(i1, j1, [i0] + tail, [j0] + tail);
    LessEqCons(i0, j0, tail, tail);
    LessEqReflexive(tail);
    DigitsOrder(i, j);
  }

  /** Below 1000, two texts that differ only in a padded field compare as
      the numbers do, and are equal only when the numbers are. */
  lemma FieldOrder(prefix: string, i: nat, j: nat, tail: string)
    requires i < 1000 && j < 1000
    ensures LessEq(prefix + Pad3(i) + tail, prefix + Pad3(j) + tail) <==> i <= j
    ensures prefix + Pad3(i) + tail == prefix + Pad3(j) + tail <==> i == j
  {
    var a, b := prefix + Pad3(i) + tail, prefix + Pad3(j) + tail;
    assert a == prefix + (Pad3(i) + tail) && b == prefix + (Pad3(j) + tail);
    LessEqCommonPrefix(prefix, Pad3(i) + tail, Pad3(j) + tail);
    LessEqCommonPrefix(prefix, Pad3(j) + tail, Pad3(i) + tail);
    Pad3Order(i, j, tail);
    Pad3Order(j, i, tail);
    LessEqReflexive(a);
  }

  /** At 1000 the field grows to four digits and starts with `1`, so it
      sorts before the field of 999, whatever follows. */
  lemma Pad3ThousandBeforeNineHundredNinetyNine(tail: string)
    ensures LessEq(Pad3(1000) + tail, Pad3(999) + tail)
    ensures !LessEq(Pad3(999) + tail, Pad3(1000) + tail)
    ensures Pad3(1000) + tail != Pad3(999) + tail
  {
    Pad3Large(1000);
    Pad3Small(999);
    var a, b := Pad3(1000) + tail, Pad3(999) + tail;
    assert Pad3(1000)[0] == '1' by {
      assert Decimal(1000)[0] == Decimal(100)[0] == Decimal(10)[0] == Decimal(1)[0];
    }
    assert a[0] == '1' && b[0] == '9';
    assert a == [a[0]] + a[1..] && b == [b[0]] + b[1..];
    LessEqCons(a[0], b[0], a[1..], b[1..]);
    LessEqCons(b[0], a[0], b[1..], a[1..]);
  }

  /** Three-digit numbers compare as their digit triples do, most significant first. */
  lemma DigitsOrder(i: nat, j: nat)
    requires i < 1000 && j < 1000
    ensures i <= j <==>
      i / 100 < j / 100 ||
      (i / 100 == j / 100 && (i / 10 % 10 < j / 10 % 10 ||
        (i / 10 % 10 == j / 10 % 10 && i % 10 <= j % 10)))
  {
  }
}
