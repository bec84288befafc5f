/**
 * `formatDuration` in src/index.ts: a number of seconds shown as `h:mm:ss`
 * when it reaches an hour and as `m:ss` otherwise, with `Number.toString`
 * for the leading field and `padStart(2, "0")` for the others.
 */
module Duration {
  import opened Wrappers

  predicate IsDigit(c: char) {
    '0' <= c <= '9'
  }

  predicate AllDigits(s: string) {
    forall i :: 0 <= i < |s| ==> IsDigit(s[i])
  }

  function DigitChar(d: nat): (c: char)
    requires d < 10
    ensures IsDigit(c)
  {
    ('0' as int + d) as char
  }

  /** The value of a run of decimal digits, most significant first. */
  function Value(s: string): nat
    requires AllDigits(s)
  {
    if s == [] then 0 else Value(s[..|s| - 1]) * 10 + (s[|s| - 1] as int - '0' as int)
  }

  /** `n.toString()` for a non-negative integer. */
  function Decimal(n: nat): (r: string)
    ensures |r| >= 1 && AllDigits(r)
    ensures |r| > 1 ==> r[0] != '0'
  {
    if n < 10 then [DigitChar(n)] else Decimal(n / 10) + [DigitChar(n % 10)]
  }

  /** `padStart(2, "0")`: prefix zeros until the text has two characters. */
  function PadStart2(s: string): (r: string)
    ensures |r| == if |s| < 2 then 2 else |s|
  {
    if |s| == 0 then "00" else if |s| == 1 then "0" + s else s
  }

  /** The three fields, by floor division and remainder. */
  function Fields(total: nat): (r: (nat, nat, nat))
    ensures r.1 < 60 && r.2 < 60
    ensures r.0 * 3600 + r.1 * 60 + r.2 == total
  {
    var hours := total / 3600;
    var minutes := (total % 3600) / 60;
    var secs := total % 60;
    assert total % 3600 == minutes * 60 + secs by {
      assert total == hours * 3600 + total % 3600;
      assert total % 3600 == (total % 3600) / 60 * 60 + (total % 3600) % 60;
      assert (total % 3600) % 60 == total % 60 by {
        assert total == (hours * 60) * 60 + total % 3600;
      }
    }
    (hours, minutes, secs)
  }

  /** `formatDuration` on a number of seconds already parsed. */
  function FormatDuration(total: nat): string {
    var (hours, minutes, secs) := Fields(total);
    if hours > 0 then
      Decimal(hours) + ":" + PadStart2(Decimal(minutes)) + ":" + PadStart2(Decimal(secs))
    else
      Decimal(minutes) + ":" + PadStart2(Decimal(secs))
  }

  // ---- reading a duration back ----

  /** The text up to the first ':' and, when there is one, the rest after it. */
  function SplitColon(s: string): (r: seq<string>)
    ensures |r| >= 1
    ensures forall i :: 0 <= i < |r| ==> ':' !in r[i]
  {
    if s == [] then [""]
    else if s[0] == ':' then [""] + SplitColon(s[1..])
    else
      var rest := SplitColon(s[1..]);
      [[s[0]] + rest[0]] + rest[1..]
  }

  /** A field of one or more digits. */
  predicate Numeral(s: string) {
    |s| >= 1 && AllDigits(s)
  }

  /** A two-digit field below sixty. */
  predicate Sexagesimal(s: string) {
    |s| == 2 && AllDigits(s) && Value(s) < 60
  }

  /**
   * The inverse of `FormatDuration`: `h:mm:ss` with `h` written without
   * leading zeros and not zero, or `m:ss` with `m` below sixty and
   * without leading zeros.
   */
  function ParseDuration(s: string): Option<nat> {
    var f := SplitColon(s);
    if |f| == 3 && Numeral(f[0]) && (|f[0]| > 1 ==> f[0][0] != '0') && Value(f[0]) > 0
       && Sexagesimal(f[1]) && Sexagesimal(f[2]) then
      Some(Value(f[0]) * 3600 + Value(f[1]) * 60 + Value(f[2]))
    else if |f| == 2 && Numeral(f[0]) && (|f[0]| > 1 ==> f[0][0] != '0') && Value(f[0]) < 60
       && Sexagesimal(f[1]) then
      Some(Value(f[0]) * 60 + Value(f[1]))
    else
      None
  }

  // ---- lemmas ----

  lemma {:induction false} DecimalValue(n: nat)
    ensures Value(Decimal(n)) == n
  {
    if n >= 10 {
      DecimalValue(n / 10);
      var r := Decimal(n);
      assert r[..|r| - 1] == Decimal(n / 10);
    }
  }

  /** `toString` of a number below ten is one digit, and of one below a hundred at most two. */
  lemma DecimalWidth(n: nat)
    ensures n < 10 ==> |Decimal(n)| == 1
    ensures 10 <= n < 100 ==> |Decimal(n)| == 2
  {
  }

  /** A padded field below a hundred is exactly two digits and keeps its value. */
  lemma PaddedField(n: nat)
    requires n < 100
    ensures |PadStart2(Decimal(n))| == 2 && AllDigits(PadStart2(Decimal(n)))
    ensures Value(PadStart2(Decimal(n))) == n
  {
    DecimalValue(n);
    DecimalWidth(n);
    var d := Decimal(n);
    var p := PadStart2(d);
    if n < 10 {
      assert p == ['0', d[0]];
      assert p[..1] == ['0'];
      assert d[..0] == [];
    }
  }

  lemma {:induction false} SplitNoColon(s: string)
    requires ':' !in s
    ensures SplitColon(s) == [s]
  {
    if s != [] {
      SplitNoColon(s[1..]);
      assert [s[0]] + s[1..] == s;
    }
  }

  lemma {:induction false} SplitJoin(a: string, rest: string)
    requires ':' !in a
    ensures SplitColon(a + ":" + rest) == [a] + SplitColon(rest)
  {
    if a == [] {
      assert a + ":" + rest == [':'] + rest;
    } else {
      SplitJoin(a[1..], rest);
      assert (a + ":" + rest)[1..] == a[1..] + ":" + rest;
      assert (a + ":" + rest)[0] == a[0] != ':';
      assert [a[0]] + a[1..] == a;
    }
  }

  lemma DigitsHaveNoColon(s: string)
    requires AllDigits(s)
    ensures ':' !in s
  {
    forall i | 0 <= i < |s| ensures s[i] != ':' {
      assert IsDigit(s[i]);
    }
  }

  lemma SplitThree(a: string, b: string, c: string)
    requires ':' !in a && ':' !in b && ':' !in c
    ensures SplitColon(a + ":" + b + ":" + c) == [a, b, c]
  {
    SplitNoColon(c);
    SplitJoin(b, c);
    SplitJoin(a, b + ":" + c);
    assert a + ":" + b + ":" + c == a + ":" + (b + ":" + c);
  }

  lemma SplitTwo(a: string, b: string)
    requires ':' !in a && ':' !in b
    ensures SplitColon(a + ":" + b) == [a, b]
  {
    SplitNoColon(b);
    SplitJoin(a, b);
  }

  /** The fields `FormatDuration` writes, with their widths and values. */
  lemma FormatFields(total: nat)
    ensures var (hours, minutes, secs) := Fields(total);
      var ss := PadStart2(Decimal(secs));
      && |ss| == 2 && AllDigits(ss) && Value(ss) == secs
      && Value(Decimal(hours)) == hours && Value(Decimal(minutes)) == minutes
      && |PadStart2(Decimal(minutes))| == 2 && AllDigits(PadStart2(Decimal(minutes)))
      && Value(PadStart2(Decimal(minutes))) == minutes
      && (hours > 0 ==> SplitColon(FormatDuration(total)) == [Decimal(hours), PadStart2(Decimal(minutes)), ss])
      && (hours == 0 ==> SplitColon(FormatDuration(total)) == [Decimal(minutes), ss])
  {
    var (hours, minutes, secs) := Fields(total);
    var ss := PadStart2(Decimal(secs));
    var mm := PadStart2(Decimal(minutes));
    PaddedField(secs);
    PaddedField(minutes);
    DecimalValue(hours);
    DecimalValue(minutes);
    DigitsHaveNoColon(ss);
    DigitsHaveNoColon(mm);
    DigitsHaveNoColon(Decimal(hours));
    DigitsHaveNoColon(Decimal(minutes));
    if hours > 0 {
      SplitThree(Decimal(hours), mm, ss);
    } else {
      SplitTwo(Decimal(minutes), ss);
    }
  }

  /** `FormatDuration` loses nothing: parsing its text gives the seconds back. */
  lemma ParseFormatDuration(total: nat)
    ensures ParseDuration(FormatDuration(total)) == Some(total)
  {
    FormatFields(total);
  }

  /** Distinct durations print differently. */
  lemma FormatDurationInjective(a: nat, b: nat)
    requires FormatDuration(a) == FormatDuration(b)
    ensures a == b
  {
    ParseFormatDuration(a);
    ParseFormatDuration(b);
  }

  /**
   * The shape of the text: `h:mm:ss` from an hour on and `m:ss` below,
   * with the padded fields exactly two digits.
   */
  lemma FormatDurationShape(total: nat)
    ensures var f := SplitColon(FormatDuration(total));
      (|f| == 3 <==> total >= 3600) && (|f| == 2 <==> total < 3600)
      && |f[|f| - 1]| == 2 && AllDigits(f[|f| - 1]) && Value(f[|f| - 1]) == total % 60
      && (|f| == 3 ==> |f[1]| == 2 && AllDigits(f[1]) && Value(f[1]) == (total % 3600) / 60 && AllDigits(f[0]) && Value(f[0]) == total / 3600)
  {
    FormatFields(total);
  }
}
