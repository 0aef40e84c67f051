/** The calendar date that the generators read from the clock; here it is
    passed in. */
module Dates {
  import opened Numerals

  datatype Date = Date(year: nat, month: nat, day: nat)

  /** The ranges a Python `datetime` keeps its fields in. */
  predicate Valid(d: Date) {
    1 <= d.year <= 9999 && 1 <= d.month <= 12 && 1 <= d.day <= 31
  }

  lemma Pow10Values()
    ensures Pow10(2) == 100 && Pow10(4) == 10000
  {
    assert Pow10(1) == 10;
    assert Pow10(3) == 1000;
  }

  lemma Fields3(a: string, b: string, c: string)
    requires IsDigits(a) && IsDigits(b) && IsDigits(c)
    ensures var r := a + b + c;
            && IsDigits(r)
            && r[..|a|] == a && r[|a|..|a| + |b|] == b && r[|a| + |b|..] == c
  {
  }

  lemma Fields5(a: string, s: string, b: string, c: string)
    ensures var r := a + s + b + s + c;
            && r[..|a|] == a && r[|a| + |s| .. |a| + |s| + |b|] == b
            && r[|a| + |s| + |b| + |s|..] == c
  {
  }

  /** `strftime('%Y%m%d')`: eight digits, year, month and day in that order. */
  function Stamp(d: Date): (r: string)
    requires Valid(d)
    ensures |r| == 8 && IsDigits(r)
    ensures Value(r[..4]) == d.year && Value(r[4..6]) == d.month && Value(r[6..]) == d.day
  {
    Pow10Values();
    var y, m, dd := Padded(d.year, 4), Padded(d.month, 2), Padded(d.day, 2);
    Fields3(y, m, dd);
    y + m + dd
  }

  /** `strftime('%d/%m/%Y')`: day, month and year separated by '/'. */
  function Text(d: Date): (r: string)
    requires Valid(d)
    ensures |r| == 10 && r[2] == '/' && r[5] == '/'
    ensures IsDigits(r[..2]) && Value(r[..2]) == d.day
    ensures IsDigits(r[3..5]) && Value(r[3..5]) == d.month
    ensures IsDigits(r[6..]) && Value(r[6..]) == d.year
  {
    Pow10Values();
    var y, m, dd := Padded(d.year, 4), Padded(d.month, 2), Padded(d.day, 2);
    Fields5(dd, "/", m, y);
    dd + "/" + m + "/" + y
  }
}
