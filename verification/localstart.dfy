/**
  The stored local start time, a fixed-format string `YYYY-MM-DD HH:MM:SS`
  without a time zone, and the date part the streak pass reads from it with
  `strptime(..., "%Y-%m-%d %H:%M:%S").date()`.

  Activities are fetched ordered by this string, so the module also relates
  the string order to the date order.
*/
module LocalStart {
  import opened Wrappers
  import opened Dates

  /** Length of `YYYY-MM-DD HH:MM:SS`. */
  const Width := 19

  datatype Clock = Clock(hour: int, minute: int, second: int)

  /** The time of day `strptime` accepts (`%S` admits 60 and 61, the `datetime` constructor does not). */
  predicate ValidClock(c: Clock) {
    0 <= c.hour <= 23 && 0 <= c.minute <= 59 && 0 <= c.second <= 59
  }

  predicate IsDigit(c: char) {
    '0' <= c <= '9'
  }

  function DigitValue(c: char): (v: int)
    requires IsDigit(c)
    ensures 0 <= v <= 9
  {
    c as int - '0' as int
  }

  function DigitChar(v: int): (c: char)
    requires 0 <= v <= 9
    ensures IsDigit(c) && DigitValue(c) == v
  {
    ('0' as int + v) as char
  }

  predicate IsSeparatorPosition(i: int) {
    i == 4 || i == 7 || i == 10 || i == 13 || i == 16
  }

  /** The literal character the format puts at separator position `i`. */
  function SeparatorAt(i: int): char {
    if i == 4 || i == 7 then '-' else if i == 10 then ' ' else ':'
  }

  /** Digits and separators where the format puts them. */
  predicate HasShape(s: string) {
    && |s| == Width
    && forall i :: 0 <= i < Width ==>
         if IsSeparatorPosition(i) then s[i] == SeparatorAt(i) else IsDigit(s[i])
  }

  /** The two-digit number at positions `i` and `i + 1`. */
  function Pair(s: string, i: int): (v: int)
    requires HasShape(s) && 0 <= i < Width - 1
    requires !IsSeparatorPosition(i) && !IsSeparatorPosition(i + 1)
    ensures 0 <= v <= 99
  {
    10 * DigitValue(s[i]) + DigitValue(s[i + 1])
  }

  function DateFields(s: string): Date
    requires HasShape(s)
  {
    Date(100 * Pair(s, 0) + Pair(s, 2), Pair(s, 5), Pair(s, 8))
  }

  function ClockFields(s: string): Clock
    requires HasShape(s)
  {
    Clock(Pair(s, 11), Pair(s, 14), Pair(s, 17))
  }

  /** The date part of a stored local start time, or `None` where `strptime` raises. */
  function ParseDate(s: string): (r: Option<Date>)
    ensures r.Some? ==> Valid(r.value)
  {
    if HasShape(s) && Valid(DateFields(s)) && ValidClock(ClockFields(s)) then Some(DateFields(s))
    else None
  }

  /** How a date and a time of day are written in the store. */
  function Format(d: Date, c: Clock): (s: string)
    requires Valid(d) && ValidClock(c)
  {
    var y := d.year;
    [ DigitChar(y / 1000), DigitChar(y / 100 % 10), DigitChar(y / 10 % 10), DigitChar(y % 10), '-',
      DigitChar(d.month / 10), DigitChar(d.month % 10), '-',
      DigitChar(d.day / 10), DigitChar(d.day % 10), ' ',
      DigitChar(c.hour / 10), DigitChar(c.hour % 10), ':',
      DigitChar(c.minute / 10), DigitChar(c.minute % 10), ':',
      DigitChar(c.second / 10), DigitChar(c.second % 10) ]
  }

  lemma DigitRoundTrip(c: char)
    requires IsDigit(c)
    ensures DigitChar(DigitValue(c)) == c
  {
  }

  lemma SplitTwo(a: int, b: int)
    requires 0 <= a <= 9 && 0 <= b <= 9
    ensures (10 * a + b) / 10 == a && (10 * a + b) % 10 == b
  {
  }

  lemma SplitFour(a: int, b: int, c: int, e: int)
    requires 0 <= a <= 9 && 0 <= b <= 9 && 0 <= c <= 9 && 0 <= e <= 9
    ensures var y := 1000 * a + 100 * b + 10 * c + e;
      y / 1000 == a && y / 100 % 10 == b && y / 10 % 10 == c && y % 10 == e
  {
    var y := 1000 * a + 100 * b + 10 * c + e;
    DivMod(y, 1000, a, 100 * b + 10 * c + e);
    DivMod(y, 100, 10 * a + b, 10 * c + e);
    DivMod(10 * a + b, 10, a, b);
    DivMod(y, 10, 100 * a + 10 * b + c, e);
    DivMod(100 * a + 10 * b + c, 10, 10 * a + b, c);
  }

  /** Division by a power of ten is determined by quotient and remainder. */
  lemma DivMod(n: int, k: int, q: int, r: int)
    requires k == 10 || k == 100 || k == 1000
    requires 0 <= r < k && n == k * q + r
    ensures n / k == q && n % k == r
  {
    if k == 10 {
      assert n == 10 * q + r;
    } else if k == 100 {
      assert n == 100 * q + r;
    } else {
      assert n == 1000 * q + r;
    }
  }

  lemma JoinTwo(v: int)
    requires 0 <= v <= 99
    ensures 0 <= v / 10 <= 9 && 10 * (v / 10) + v % 10 == v
  {
  }

  lemma JoinFour(y: int)
    requires 0 <= y <= 9999
    ensures 0 <= y / 1000 <= 9 && 0 <= y / 100 % 10 <= 9 && 0 <= y / 10 % 10 <= 9
    ensures 1000 * (y / 1000) + 100 * (y / 100 % 10) + 10 * (y / 10 % 10) + y % 10 == y
  {
  }

  /** Parsing a formatted local start time gives back its date. */
  lemma ParseFormat(d: Date, c: Clock)
    requires Valid(d) && ValidClock(c)
    ensures HasShape(Format(d, c))
    ensures DateFields(Format(d, c)) == d && ClockFields(Format(d, c)) == c
    ensures ParseDate(Format(d, c)) == Some(d)
  {
    var s := Format(d, c);
    forall i | 0 <= i < Width
      ensures if IsSeparatorPosition(i) then s[i] == SeparatorAt(i) else IsDigit(s[i])
    {
    }
    JoinFour(d.year);
    JoinTwo(d.month);
    JoinTwo(d.day);
    JoinTwo(c.hour);
    JoinTwo(c.minute);
    JoinTwo(c.second);
    assert DateFields(s) == d;
    assert ClockFields(s) == c;
  }

  /** Every string the parser accepts is the formatting of its own fields. */
  lemma FormatParse(s: string)
    requires ParseDate(s).Some?
    ensures s == Format(ParseDate(s).value, ClockFields(s))
  {
    var d, c := DateFields(s), ClockFields(s);
    var t := Format(d, c);
    SplitFour(DigitValue(s[0]), DigitValue(s[1]), DigitValue(s[2]), DigitValue(s[3]));
    SplitTwo(DigitValue(s[5]), DigitValue(s[6]));
    SplitTwo(DigitValue(s[8]), DigitValue(s[9]));
    SplitTwo(DigitValue(s[11]), DigitValue(s[12]));
    SplitTwo(DigitValue(s[14]), DigitValue(s[15]));
    SplitTwo(DigitValue(s[17]), DigitValue(s[18]));
    forall i | 0 <= i < Width
      ensures s[i] == t[i]
    {
      if !IsSeparatorPosition(i) {
        DigitRoundTrip(s[i]);
      }
    }
  }

  /** Code-point (and so UTF-8 byte) order on strings, the order the store sorts text by. */
  predicate LexLe(a: string, b: string) {
    |a| == 0 || (|b| > 0 && (a[0] < b[0] || (a[0] == b[0] && LexLe(a[1..], b[1..]))))
  }

  /** Any two strings are ordered one way or the other. */
  lemma {:induction false} LexLeTotal(a: string, b: string)
    ensures LexLe(a, b) || LexLe(b, a)
    decreases |a|
  {
    if |a| > 0 && |b| > 0 && a[0] == b[0] {
      LexLeTotal(a[1..], b[1..]);
    }
  }

  /** Strings ordered both ways are equal. */
  lemma {:induction false} LexLeAntisymmetric(a: string, b: string)
    requires LexLe(a, b) && LexLe(b, a)
    ensures a == b
    decreases |a|
  {
    if |a| > 0 {
      LexLeAntisymmetric(a[1..], b[1..]);
      assert a == [a[0]] + a[1..] && b == [b[0]] + b[1..];
    }
  }

  lemma {:induction false} LexLeTransitive(a: string, b: string, c: string)
    requires LexLe(a, b) && LexLe(b, c)
    ensures LexLe(a, c)
    decreases |a|
  {
    if |a| > 0 && a[0] == b[0] && b[0] == c[0] {
      LexLeTransitive(a[1..], b[1..], c[1..]);
    }
  }

  /** Where two ordered strings first differ, or the shorter one ends. */
  lemma {:induction false} LexLeFirstDifference(a: string, b: string) returns (k: nat)
    requires LexLe(a, b)
    ensures k <= |a| && k <= |b|
    ensures forall j :: 0 <= j < k ==> a[j] == b[j]
    ensures k == |a| || (k < |b| && a[k] < b[k])
  {
    if |a| == 0 || a[0] < b[0] {
      k := 0;
    } else {
      var k' := LexLeFirstDifference(a[1..], b[1..]);
      k := k' + 1;
      forall j | 0 <= j < k
        ensures a[j] == b[j]
      {
        if j > 0 {
          assert a[j] == a[1..][j - 1] && b[j] == b[1..][j - 1];
        }
      }
      if k' < |a[1..]| {
        assert a[k] == a[1..][k'] && b[k] == b[1..][k'];
      }
    }
  }

  /**
    Among well-formed local start times, string order implies date order: a
    list sorted by the stored string has non-decreasing dates.
  */
  lemma OrderedStringsHaveOrderedDates(s1: string, s2: string)
    requires ParseDate(s1).Some? && ParseDate(s2).Some?
    requires LexLe(s1, s2)
    ensures !Before(ParseDate(s2).value, ParseDate(s1).value)
    ensures ToOrdinal(ParseDate(s1).value) <= ToOrdinal(ParseDate(s2).value)
  {
    var k := LexLeFirstDifference(s1, s2);
    var d1, d2 := ParseDate(s1).value, ParseDate(s2).value;
    if k < Width {
      assert !IsSeparatorPosition(k);
      assert DigitValue(s1[k]) < DigitValue(s2[k]);
      DigitsBeforeAgree(s1, s2, k);
    } else {
      assert s1 == s2;
    }
    OrdinalOrder(d1, d2);
  }

  /** Helper: digits before the first difference agree in value. */
  lemma DigitsBeforeAgree(s1: string, s2: string, k: nat)
    requires HasShape(s1) && HasShape(s2) && k < Width
    requires forall j :: 0 <= j < k ==> s1[j] == s2[j]
    ensures forall j :: 0 <= j < k && !IsSeparatorPosition(j) ==> DigitValue(s1[j]) == DigitValue(s2[j])
  {
  }
}
