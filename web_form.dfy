/** The text builders of the web form (App.py): the services list, the
    payment terms and the services field, which arrives as one comma-separated
    text. */
module WebForm {
  import opened PyText
  import opened ListComp

  /** The line one entry gives: none when it is blank, otherwise "- " and
      the entry stripped. */
  function EntryLine(entry: string): (lines: seq<string>)
    ensures |lines| <= 1
    ensures lines == [] <==> AllSpace(entry)
    ensures lines == [] || lines == ["- " + Strip(entry)]
  {
    var s := Strip(entry);
    if s == "" then [] else ["- " + s]
  }

  /** The lines `format_services_list` joins: "- " and the stripped entry, for
      every entry that is not blank, in the order given. */
  function ServiceLines(services: seq<string>): (lines: seq<string>)
    ensures |lines| <= |services|
  {
    FlatMapShort(EntryLine, services);
    FlatMap(EntryLine, services)
  }

  /** `format_services_list(services)`: the bullet lines joined by newlines;
      empty exactly when there is no line. */
  function FormatServicesList(services: seq<string>): (text: string)
    ensures text == "" <==> ServiceLines(services) == []
  {
    var lines := ServiceLines(services);
    JoinIsEmpty(lines, "\n");
    ServiceLinesBulleted(services);
    assert lines != [] ==> |lines[0]| >= 2;
    Join(lines, "\n")
  }

  /** Every line starts with the bullet "- ". */
  lemma ServiceLinesBulleted(services: seq<string>)
    ensures forall j :: 0 <= j < |ServiceLines(services)| ==>
              |ServiceLines(services)[j]| >= 2 && ServiceLines(services)[j][..2] == "- "
  {
    var lines := ServiceLines(services);
    forall j | 0 <= j < |lines| ensures |lines[j]| >= 2 && lines[j][..2] == "- " {
      var i := ServiceLineSource(services, j);
      assert ("- " + Strip(services[i]))[..2] == "- ";
    }
  }

  /** The lines of a concatenation are the lines of its two halves, in order. */
  lemma ServiceLinesAppend(a: seq<string>, b: seq<string>)
    ensures ServiceLines(a + b) == ServiceLines(a) + ServiceLines(b)
  {
    FlatMapAppend(EntryLine, a, b);
  }

  /** Each line comes from one entry `i` that is not blank: "- " and that
      entry stripped. */
  lemma ServiceLineSource(services: seq<string>, j: nat) returns (i: nat)
    requires j < |ServiceLines(services)|
    ensures i < |services| && !AllSpace(services[i])
    ensures ServiceLines(services)[j] == "- " + Strip(services[i])
  {
    i := FlatMapSource(EntryLine, services, j);
  }

  /** Every entry that is not blank gives a line. */
  lemma ServiceLinesKeep(services: seq<string>, i: nat)
    requires i < |services| && !AllSpace(services[i])
    ensures "- " + Strip(services[i]) in ServiceLines(services)
  {
    FlatMapKeep(EntryLine, services, i, "- " + Strip(services[i]));
  }

  /** The list is empty exactly when every entry is blank (the empty list
      included). */
  lemma {:induction false} FormatServicesListEmpty(services: seq<string>)
    ensures FormatServicesList(services) == "" <==> forall i :: 0 <= i < |services| ==> AllSpace(services[i])
  {
    var lines := ServiceLines(services);
    JoinIsEmpty(lines, "\n");
    if lines != [] {
      var i := ServiceLineSource(services, 0);
    }
    if exists i :: 0 <= i < |services| && !AllSpace(services[i]) {
      var i :| 0 <= i < |services| && !AllSpace(services[i]);
      ServiceLinesKeep(services, i);
    }
  }

  /** A line never ends with whitespace. */
  lemma EntryLineEnd(entry: string)
    requires EntryLine(entry) != []
    ensures var line := EntryLine(entry)[0]; |line| > 0 && !IsSpace(line[|line| - 1])
  {
    var s := Strip(entry);
    var line := "- " + s;
    assert EntryLine(entry) == [line];
    assert s != [] && !IsSpace(s[|s| - 1]);
    assert line[|line| - 1] == s[|s| - 1];
  }

  /** The list never ends with a newline or other whitespace. */
  lemma FormatServicesListEnd(services: seq<string>)
    ensures var r := FormatServicesList(services);
            r == "" || !IsSpace(r[|r| - 1])
  {
    var lines := ServiceLines(services);
    if lines != [] {
      var last := lines[|lines| - 1];
      JoinEndsWithLast(lines, "\n");
      var i := FlatMapSource(EntryLine, services, |lines| - 1);
      assert EntryLine(services[i]) == [last];
      EntryLineEnd(services[i]);
    }
  }

  lemma LineHasNo(services: seq<string>, j: nat, c: char)
    requires j < |ServiceLines(services)|
    requires c != '-' && c != ' '
    requires forall i :: 0 <= i < |services| ==> c !in services[i]
    ensures c !in ServiceLines(services)[j]
  {
    var i := ServiceLineSource(services, j);
    if c in Strip(services[i]) {
      StripChars(services[i], c);
    }
  }

  /** When no entry holds a newline once stripped (a newline at either end,
      as a multi-line services field gives, is stripped away), the text
      splits back into exactly one line per entry that is not blank. */
  lemma FormatServicesListLines(services: seq<string>)
    requires forall i :: 0 <= i < |services| ==> '\n' !in Strip(services[i])
    requires FormatServicesList(services) != ""
    ensures Split(FormatServicesList(services), '\n') == ServiceLines(services)
  {
    var lines := ServiceLines(services);
    forall j | 0 <= j < |lines| ensures '\n' !in lines[j] {
      var i := ServiceLineSource(services, j);
    }
    SplitJoin(lines, '\n');
  }

  /** The services field is split on commas (`text.split(",")`), so no comma
      of the field reaches the services block of the agreement. */
  lemma ServicesBlockHasNoComma(text: string)
    ensures ',' !in FormatServicesList(Split(text, ','))
  {
    var pieces := Split(text, ',');
    var lines := ServiceLines(pieces);
    SplitPiecesFree(text, ',');
    if ',' in Join(lines, "\n") {
      JoinChars(lines, "\n", ',');
      var j :| 0 <= j < |lines| && ',' in lines[j];
      LineHasNo(pieces, j, ',');
    }
  }

  // The fixed wording of the payment terms, written in short pieces so
  // that the verifier can take it apart.
  const AdvanceClause := "% advance payment " + "upon signing " + "this agreement"
  const RemainingClause := "% upon completion " + "of VAT registration"
  const NonRefundable := "- All payments " + "are non-refundable"

  /** The first line of the payment terms: the advance share. */
  function AdvanceLine(advance: string): string
  {
    "- " + advance + AdvanceClause
  }

  /** The second line of the payment terms: the remaining share. */
  function RemainingLine(remaining: string): string
  {
    "- Remaining " + remaining + RemainingClause
  }

  /** The payment terms block: the advance share, the remaining share and a
      fixed non-refundable clause, one per line. */
  function FormatPaymentTerms(advance: string, remaining: string): (text: string)
    ensures |text| == |advance| + |remaining| + 131
    ensures text[..2] == "- " && text[2..2 + |advance|] == advance
  {
    assert |AdvanceClause| == 45 && |RemainingClause| == 37 && |NonRefundable| == 33;
    AdvanceLine(advance) + "\n" + RemainingLine(remaining) + "\n" + NonRefundable
  }

  lemma ClausesHaveNoNewline()
    ensures '\n' !in AdvanceClause && '\n' !in RemainingClause && '\n' !in NonRefundable
  {
    assert forall i :: 0 <= i < |AdvanceClause| ==> AdvanceClause[i] != '\n';
    assert forall i :: 0 <= i < |RemainingClause| ==> RemainingClause[i] != '\n';
    assert forall i :: 0 <= i < |NonRefundable| ==> NonRefundable[i] != '\n';
  }

  /** Whatever the two shares are, the block reads back as exactly three
      lines: the advance share, the remaining share, the fixed clause. */
  lemma PaymentTermsLines(advance: string, remaining: string)
    requires '\n' !in advance && '\n' !in remaining
    ensures Split(FormatPaymentTerms(advance, remaining), '\n')
            == [AdvanceLine(advance), RemainingLine(remaining), NonRefundable]
  {
    var a, b, c := AdvanceLine(advance), RemainingLine(remaining), NonRefundable;
    ClausesHaveNoNewline();
    JoinThree(a, b, c, "\n");
    assert Join([a, b, c], "\n") == FormatPaymentTerms(advance, remaining);
    SplitJoin([a, b, c], '\n');
  }

  /** The block names the advance share as "<advance>% advance". */
  lemma PaymentTermsAdvance(advance: string, remaining: string)
    ensures IsInfix(advance + "% advance", FormatPaymentTerms(advance, remaining))
  {
    var x := advance + "% advance";
    var a := AdvanceLine(advance);
    var rest := AdvanceClause[9..];
    assert AdvanceClause == "% advance" + rest;
    assert a == "- " + x + rest;
    InfixMiddle("- ", x, rest);
    InfixExtend(x, a, "\n");
    InfixExtend(x, a + "\n", RemainingLine(remaining));
    InfixExtend(x, a + "\n" + RemainingLine(remaining), "\n");
    InfixExtend(x, a + "\n" + RemainingLine(remaining) + "\n", NonRefundable);
  }

  /** The block names the remaining share as "Remaining <remaining>%". */
  lemma PaymentTermsRemaining(advance: string, remaining: string)
    ensures IsInfix("Remaining " + remaining + "%", FormatPaymentTerms(advance, remaining))
  {
    var x := "Remaining " + remaining + "%";
    var a, b := AdvanceLine(advance), RemainingLine(remaining);
    var rest := RemainingClause[1..];
    assert RemainingClause == "%" + rest;
    assert b == "- " + x + rest;
    InfixMiddle("- ", x, rest);
    InfixExtend(x, b, a + "\n");
    InfixExtend(x, a + "\n" + b, "\n");
    InfixExtend(x, a + "\n" + b + "\n", NonRefundable);
  }

  /** The block ends with the fixed non-refundable clause. */
  lemma PaymentTermsClause(advance: string, remaining: string)
    ensures var r := FormatPaymentTerms(advance, remaining);
            |r| >= |NonRefundable| && r[|r| - |NonRefundable|..] == NonRefundable
  {
  }
}
