/** The text form of dates in the database, `YYYY-MM-DD`, and the way SQLite
    compares TEXT values (the default BINARY collation: character by
    character, a proper prefix first). On dates written this way, text order
    is chronological order. */
module IsoText {
  import opened Calendar

  /** `a <= b` between two TEXT values: a prefix of the other text comes
      first and a proper extension of it last; otherwise the first position
      where the two differ decides (`TextLeFirstDifference`). */
  function TextLe(a: string, b: string): (r: bool)
    ensures |a| <= |b| && a == b[..|a|] ==> r
    ensures |b| < |a| && b == a[..|b|] ==> !r
    decreases |a|
  {
    if a == [] then true
    else if b == [] then false
    else if a[0] != b[0] then a[0] < b[0]
    else
      assert |a| <= |b| ==> b[..|a|][1..] == b[1..][..|a| - 1];
      assert |b| < |a| ==> a[..|b|][1..] == a[1..][..|b| - 1];
      TextLe(a[1..], b[1..])
  }

  /** Two texts that agree up to position `k` and differ there compare as
      their characters at `k` do. */
  lemma {:induction false} TextLeFirstDifference(a: string, b: string, k: nat)
    requires k < |a| && k < |b| && a[..k] == b[..k] && a[k] != b[k]
    ensures TextLe(a, b) <==> a[k] < b[k]
  {
    if k > 0 {
      assert a[0] == a[..k][0] && b[0] == b[..k][0];
      assert a[1..][..k - 1] == a[..k][1..] && b[1..][..k - 1] == b[..k][1..];
      TextLeFirstDifference(a[1..], b[1..], k - 1);
    }
  }

  lemma {:induction false} TextLeTransitive(a: string, b: string, c: string)
    requires TextLe(a, b) && TextLe(b, c)
    ensures TextLe(a, c)
    decreases |a|
  {
    if a != [] && b != [] && c != [] && a[0] == b[0] == c[0] {
      TextLeTransitive(a[1..], b[1..], c[1..]);
    }
  }

  lemma {:induction false} TextLeTotal(a: string, b: string)
    ensures TextLe(a, b) || TextLe(b, a)
    decreases |a|
  {
    if a != [] && b != [] && a[0] == b[0] {
      TextLeTotal(a[1..], b[1..]);
    }
  }

  /** Comparing two texts that start with parts of the same length: the first
      parts decide unless they are equal. */
  lemma {:induction false} TextLeAppend(x: string, y: string, x': string, y': string)
    requires |x| == |x'|
    ensures TextLe(x + y, x' + y') <==> if x == x' then TextLe(y, y') else TextLe(x, x')
    decreases |x|
  {
    if x == [] {
      assert x + y == y && x' + y' == y';
    } else {
      assert (x + y)[0] == x[0] && (x' + y')[0] == x'[0];
      assert (x + y)[1..] == x[1..] + y && (x' + y')[1..] == x'[1..] + y';
      TextLeAppend(x[1..], y, x'[1..], y');
      assert x == [x[0]] + x[1..] && x' == [x'[0]] + x'[1..];
    }
  }

  function Pow10(w: nat): nat {
    if w == 0 then 1 else 10 * Pow10(w - 1)
  }

  function DigitChar(n: int): char
    requires 0 <= n < 10
  {
    ('0' as int + n) as char
  }

  /** `n` in decimal, zero-padded to `w` digits. */
  function Digits(n: int, w: nat): (s: string)
    requires 0 <= n < Pow10(w)
    ensures |s| == w
    ensures forall i :: 0 <= i < w ==> '0' <= s[i] <= '9'
  {
    if w == 0 then "" else Digits(n / 10, w - 1) + [DigitChar(n % 10)]
  }

  /** Zero-padded decimals of one width compare as text as the numbers
      compare, and are equal only for equal numbers. */
  lemma {:induction false} DigitsOrder(n: int, m: int, w: nat)
    requires 0 <= n < Pow10(w) && 0 <= m < Pow10(w)
    ensures Digits(n, w) == Digits(m, w) <==> n == m
    ensures TextLe(Digits(n, w), Digits(m, w)) <==> n <= m
  {
    if w == 0 {
    } else {
      var hn, hm := Digits(n / 10, w - 1), Digits(m / 10, w - 1);
      var cn, cm := DigitChar(n % 10), DigitChar(m % 10);
      DigitsOrder(n / 10, m / 10, w - 1);
      TextLeAppend(hn, [cn], hm, [cm]);
      assert Digits(n, w) == hn + [cn] && Digits(m, w) == hm + [cm];
      if hn + [cn] == hm + [cm] {
        assert hn == (hn + [cn])[..w - 1] && hm == (hm + [cm])[..w - 1];
        assert cn == (hn + [cn])[w - 1] && cm == (hm + [cm])[w - 1];
      }
    }
  }

  /** The text the database stores for `d`. */
  function Iso(d: Date): (s: string)
    ensures |s| == 10
  {
    Digits(d.year, 4) + ("-" + (Digits(d.month, 2) + ("-" + Digits(d.day, 2))))
  }

  /** The stored text has the `YYYY-MM-DD` shape: ten characters, dashes at
      positions 4 and 7, and decimal digits everywhere else. */
  lemma IsoShape(d: Date)
    ensures Iso(d)[4] == '-' && Iso(d)[7] == '-'
    ensures forall i :: 0 <= i < 10 && i != 4 && i != 7 ==> '0' <= Iso(d)[i] <= '9'
  {
  }

  /** Text order on ISO dates is chronological order, and the text form of
      a date is unique. */
  lemma IsoOrder(a: Date, b: Date)
    ensures TextLe(Iso(a), Iso(b)) <==> AtOrBefore(a, b)
    ensures Iso(a) == Iso(b) <==> a == b
  {
    var ya, yb := Digits(a.year, 4), Digits(b.year, 4);
    var ma, mb := Digits(a.month, 2), Digits(b.month, 2);
    var da, db := Digits(a.day, 2), Digits(b.day, 2);
    DigitsOrder(a.year, b.year, 4);
    DigitsOrder(a.month, b.month, 2);
    DigitsOrder(a.day, b.day, 2);
    TextLeAppend(ya, "-" + (ma + ("-" + da)), yb, "-" + (mb + ("-" + db)));
    TextLeAppend("-", ma + ("-" + da), "-", mb + ("-" + db));
    TextLeAppend(ma, "-" + da, mb, "-" + db);
    TextLeAppend("-", da, "-", db);
    if Iso(a) == Iso(b) {
      assert ya == Iso(a)[..4] && yb == Iso(b)[..4];
      assert ma == Iso(a)[5..7] && mb == Iso(b)[5..7];
      assert da == Iso(a)[8..] && db == Iso(b)[8..];
    }
  }

  /** A start value that is only a year, such as `2017`, reaches the filter
      unchecked; as text it admits exactly the dates of that year and later. */
  lemma YearPrefixStart(y: int, d: Date)
    requires MIN_YEAR <= y <= MAX_YEAR
    ensures TextLe(Digits(y, 4), Iso(d)) <==> y <= d.year
  {
    var rest := "-" + (Digits(d.month, 2) + ("-" + Digits(d.day, 2)));
    DigitsOrder(y, d.year, 4);
    TextLeAppend(Digits(y, 4), "", Digits(d.year, 4), rest);
    assert Digits(y, 4) + "" == Digits(y, 4);
  }
}
