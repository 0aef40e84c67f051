/** The agreement's reference number, built the same way by the web form
    (App.py) and the interactive prompts (test.py). */
module Reference {
  import opened PyText
  import opened Numerals
  import opened Dates

  /** `BKR/VAT/<year>/<two-digit month>/<sequence.zfill(3)>` for the date the
      agreement is generated on. */
  function RefNumber(today: Date, sequence: string): (r: string)
    requires Valid(today)
    ensures |r| == |Decimal(today.year)| + |ZFill(sequence, 3)| + 12
    ensures r[..8] == "BKR/VAT/"
    ensures r[|r| - |ZFill(sequence, 3)|..] == ZFill(sequence, 3)
  {
    Pow10Values();
    var y, m, z := Decimal(today.year), Padded(today.month, 2), ZFill(sequence, 3);
    Fields5Tail("BKR/VAT/", y, m, z);
    "BKR/VAT/" + y + "/" + m + "/" + z
  }

  lemma Fields5Tail(a: string, b: string, c: string, e: string)
    ensures var r := a + b + "/" + c + "/" + e;
            && |r| == |a| + |b| + |c| + |e| + 2
            && r[..|a|] == a && r[|r| - |e|..] == e
  {
  }

  lemma DigitsHaveNoSlash(s: string)
    requires IsDigits(s)
    ensures '/' !in s
  {
  }

  /** Five fields joined by '/'. */
  lemma JoinFive(a: string, b: string, c: string, d: string, e: string)
    ensures Join([a, b, c, d, e], "/") == a + "/" + b + "/" + c + "/" + d + "/" + e
  {
    var parts := [a, b, c, d, e];
    assert parts[1..][1..][1..][1..] == [e];
    assert Join([d, e], "/") == d + "/" + e by { assert [d, e][1..] == [e]; }
    assert Join([c, d, e], "/") == c + "/" + d + "/" + e by { assert [c, d, e][1..] == [d, e]; }
    assert Join([b, c, d, e], "/") == b + "/" + c + "/" + d + "/" + e by { assert [b, c, d, e][1..] == [c, d, e]; }
    assert parts[1..] == [b, c, d, e];
  }

  /** Unless the sequence holds a '/', the reference number reads back as
      five '/'-separated fields: "BKR", "VAT", the year, the two-digit month
      and the padded sequence. */
  lemma RefNumberFields(today: Date, sequence: string)
    requires Valid(today) && '/' !in sequence
    ensures var f := Split(RefNumber(today, sequence), '/');
            && |f| == 5 && f[0] == "BKR" && f[1] == "VAT"
            && f[2] == Decimal(today.year) && IsDigits(f[2]) && Value(f[2]) == today.year
            && |f[3]| == 2 && IsDigits(f[3]) && Value(f[3]) == today.month
            && f[4] == ZFill(sequence, 3)
  {
    Pow10Values();
    var y, m, z := Decimal(today.year), Padded(today.month, 2), ZFill(sequence, 3);
    var parts := ["BKR", "VAT", y, m, z];
    JoinFive("BKR", "VAT", y, m, z);
    assert "BKR/VAT/" == "BKR" + "/" + "VAT" + "/";
    assert Join(parts, "/") == RefNumber(today, sequence);
    DigitsHaveNoSlash(y);
    DigitsHaveNoSlash(m);
    if '/' in z {
      ZFillChars(sequence, 3, '/');
    }
    SplitJoin(parts, '/');
  }

  /** For a digit sequence the last field is the sequence preceded by '0's
      only, at least three characters long, and denotes the same number. */
  lemma RefSequencePadding(today: Date, sequence: string)
    requires Valid(today) && IsDigits(sequence)
    ensures var f := Split(RefNumber(today, sequence), '/');
            |f| == 5 &&
            var last := f[4]; var pad := |last| - |sequence|;
            && |last| == (if |sequence| >= 3 then |sequence| else 3)
            && last[pad..] == sequence
            && (forall i :: 0 <= i < pad ==> last[i] == '0')
            && IsDigits(last) && Value(last) == Value(sequence)
  {
    DigitsHaveNoSlash(sequence);
    RefNumberFields(today, sequence);
    ZFillDigits(sequence, 3);
  }

  lemma DecimalExample()
    ensures Decimal(2024) == "2024"
  {
    assert Decimal(2) == "2";
    assert Decimal(20) == "20";
    assert Decimal(202) == "202";
  }

  /** The example of July 2024 with sequence "5". */
  lemma RefNumberExample(day: nat)
    requires 1 <= day <= 31
    ensures RefNumber(Date(2024, 7, day), "5") == "BKR/VAT/2024/07/005"
  {
    DecimalExample();
    assert Padded(7, 2) == "07";
    assert ZFill("5", 3) == "005";
  }
}
