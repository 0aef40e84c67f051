/** The interactive generator (test.py): the answers typed at its prompts,
    the record it builds from them, its two text builders and the name of
    the file it writes. Standard input is the sequence of answers still to
    be read. */
module CliPrompts {
  import opened PyText
  import opened ListComp
  import opened Numerals
  import opened Dates
  import Reference
  import WebForm

  /** What reading from standard input yields: a value and the answers not
      read yet, or the end of input (where `input()` raises `EOFError`). */
  datatype Prompted<T> = Done(value: T, rest: seq<string>) | EndOfInput

  /** `Done(prefix + xs, rest)` for `Done(xs, rest)`. */
  function Prepend(prefix: seq<string>, r: Prompted<seq<string>>): Prompted<seq<string>>
  {
    match r
    case EndOfInput => EndOfInput
    case Done(xs, rest) => Done(prefix + xs, rest)
  }

  // The five services offered one by one, in the order they are offered.
  const VatRegistration := "VAT Registration with " + "National Bureau " + "of Revenue (NBR)"
  const VatCompliance := "VAT Compliance and " + "Advisory Services"
  const RegistrationSupport := "Support during VAT " + "Registration Process"
  const DocumentationSupport := "Assistance with " + "Documentation " + "Requirements"
  const GeneralAdvisory := "General VAT " + "Advisory Services"
  const CannedServices := [VatRegistration, VatCompliance, RegistrationSupport, DocumentationSupport, GeneralAdvisory]

  /** The services of `menu` whose reply is affirmative, in menu order. */
  function Pick(menu: seq<string>, replies: seq<string>): (picked: seq<string>)
    requires |replies| == |menu|
    ensures |picked| <= |menu|
  {
    if menu == [] then []
    else (if IsYes(replies[0]) then [menu[0]] else []) + Pick(menu[1..], replies[1..])
  }

  /** A service of a menu without repeats is picked exactly when its reply is
      "y" or "Y". */
  lemma {:induction false} PickMember(menu: seq<string>, replies: seq<string>, k: nat)
    requires |replies| == |menu| && k < |menu|
    requires forall i, j :: 0 <= i < j < |menu| ==> menu[i] != menu[j]
    ensures menu[k] in Pick(menu, replies) <==> replies[k] == "y" || replies[k] == "Y"
  {
    IsYesExactly(replies[k]);
    var head := if IsYes(replies[0]) then [menu[0]] else [];
    assert Pick(menu, replies) == head + Pick(menu[1..], replies[1..]);
    if k == 0 {
      PickFrom(menu[1..], replies[1..], menu[0]);
      assert menu[0] !in menu[1..] by {
        forall j | 0 <= j < |menu[1..]| ensures menu[1..][j] != menu[0] {
          assert menu[1..][j] == menu[j + 1];
        }
      }
    } else {
      PickMember(menu[1..], replies[1..], k - 1);
      assert menu[1..][k - 1] == menu[k];
    }
  }

  /** Only services of the menu are picked. */
  lemma {:induction false} PickFrom(menu: seq<string>, replies: seq<string>, s: string)
    requires |replies| == |menu|
    ensures s in Pick(menu, replies) ==> s in menu
  {
    if menu != [] {
      var head := if IsYes(replies[0]) then [menu[0]] else [];
      assert Pick(menu, replies) == head + Pick(menu[1..], replies[1..]);
      PickFrom(menu[1..], replies[1..], s);
    }
  }

  /** Picking keeps menu order: the picks of a split menu are the picks of
      the first part followed by the picks of the second. */
  lemma {:induction false} PickAppend(m1: seq<string>, r1: seq<string>, m2: seq<string>, r2: seq<string>)
    requires |r1| == |m1| && |r2| == |m2|
    ensures Pick(m1 + m2, r1 + r2) == Pick(m1, r1) + Pick(m2, r2)
  {
    if m1 != [] {
      var head := if IsYes(r1[0]) then [m1[0]] else [];
      assert (m1 + m2)[1..] == m1[1..] + m2 && (r1 + r2)[1..] == r1[1..] + r2;
      assert (m1 + m2)[0] == m1[0] && (r1 + r2)[0] == r1[0];
      PickAppend(m1[1..], r1[1..], m2, r2);
      assert head + (Pick(m1[1..], r1[1..]) + Pick(m2, r2))
             == (head + Pick(m1[1..], r1[1..])) + Pick(m2, r2);
    } else {
      assert m1 + m2 == m2 && r1 + r2 == r2;
    }
  }

  /** The loop `while input(...).lower() == 'y': services.append(input(...))`:
      each affirmative answer is followed by one service description; the
      first other answer ends the list. */
  function CustomServices(answers: seq<string>): (r: Prompted<seq<string>>)
    ensures r.Done? ==> 2 * |r.value| + 1 + |r.rest| == |answers|
    decreases |answers|
  {
    if answers == [] then EndOfInput
    else if !IsYes(answers[0]) then Done([], answers[1..])
    else if |answers| == 1 then EndOfInput
    else Prepend([answers[1]], CustomServices(answers[2..]))
  }

  /** The answers that enter the descriptions `xs` and then stop with the
      answer `stop`. */
  function CustomAnswers(xs: seq<string>, stop: string): (answers: seq<string>)
    ensures |answers| == 2 * |xs| + 1
  {
    if xs == [] then [stop] else ["y", xs[0]] + CustomAnswers(xs[1..], stop)
  }

  /** Entering the descriptions `xs` and stopping with any answer other than
      "y" or "Y" collects exactly `xs` and leaves the later answers unread. */
  lemma {:induction false} CustomServicesEnter(xs: seq<string>, stop: string, later: seq<string>)
    requires stop != "y" && stop != "Y"
    ensures CustomServices(CustomAnswers(xs, stop) + later) == Done(xs, later)
  {
    IsYesExactly(stop);
    var a := CustomAnswers(xs, stop) + later;
    if xs == [] {
      assert a[1..] == later;
    } else {
      IsYesExactly("y");
      assert a[2..] == CustomAnswers(xs[1..], stop) + later;
      CustomServicesEnter(xs[1..], stop, later);
      assert [xs[0]] + xs[1..] == xs;
    }
  }

  /** Conversely, whatever the loop collects was entered that way: the
      answers at even positions before the stop are affirmative and each is
      followed by the description collected; the stop is not affirmative;
      the answers after it are left unread. */
  lemma {:induction false} CustomServicesRead(answers: seq<string>)
    requires CustomServices(answers).Done?
    ensures var xs, rest := CustomServices(answers).value, CustomServices(answers).rest;
            && 2 * |xs| + 1 <= |answers|
            && (forall i :: 0 <= i < |xs| ==> IsYes(answers[2 * i]) && answers[2 * i + 1] == xs[i])
            && !IsYes(answers[2 * |xs|])
            && rest == answers[2 * |xs| + 1..]
  {
    if IsYes(answers[0]) {
      var tail := answers[2..];
      CustomServicesRead(tail);
      var xs', rest := CustomServices(tail).value, CustomServices(tail).rest;
      var xs := [answers[1]] + xs';
      assert CustomServices(answers) == Done(xs, rest);
      forall i | 0 <= i < |xs|
        ensures IsYes(answers[2 * i]) && answers[2 * i + 1] == xs[i]
      {
        if i > 0 {
          assert answers[2 * i] == tail[2 * (i - 1)];
          assert answers[2 * i + 1] == tail[2 * (i - 1) + 1];
        }
      }
      assert answers[2 * |xs|] == tail[2 * |xs'|];
      assert answers[2 * |xs| + 1..] == tail[2 * |xs'| + 1..];
    }
  }

  /** The loop runs out of input exactly when every answer it reads as
      "add another?" is affirmative, that is every answer at an even
      position. */
  lemma {:induction false} CustomServicesEnd(answers: seq<string>)
    ensures CustomServices(answers) == EndOfInput
            <==> forall i :: 0 <= i < |answers| && i % 2 == 0 ==> IsYes(answers[i])
  {
    if answers != [] && IsYes(answers[0]) && |answers| > 1 {
      var tail := answers[2..];
      CustomServicesEnd(tail);
      forall i | 2 <= i < |answers| ensures answers[i] == tail[i - 2] {}
    }
  }

  /** The five offered services and then the custom ones: what
      `get_user_input` collects from the answers that follow the reference
      sequence number. */
  function ServicesFromAnswers(answers: seq<string>): (r: Prompted<seq<string>>)
    ensures r.Done? ==> |r.value| < |answers| && |r.rest| + 6 <= |answers|
  {
    if |answers| < 5 then EndOfInput
    else Prepend(Pick(CannedServices, answers[..5]), CustomServices(answers[5..]))
  }

  /** The offered services have no repeats. */
  lemma CannedDistinct()
    ensures forall i, j :: 0 <= i < j < |CannedServices| ==> CannedServices[i] != CannedServices[j]
  {
    assert |VatRegistration| == 54 && |VatCompliance| == 36 && |RegistrationSupport| == 39;
    assert |DocumentationSupport| == 42 && |GeneralAdvisory| == 29;
  }

  /** An offered service is collected exactly when its answer is "y" or "Y";
      the ones collected come first, in the order offered, followed by the
      custom ones. */
  lemma ServicesChosen(answers: seq<string>, k: nat)
    requires k < |CannedServices| && ServicesFromAnswers(answers).Done?
    ensures var picked := Pick(CannedServices, answers[..5]);
            && picked <= ServicesFromAnswers(answers).value
            && (CannedServices[k] in picked <==> answers[k] == "y" || answers[k] == "Y")
  {
    CannedDistinct();
    PickMember(CannedServices, answers[..5], k);
  }

  /** One turn of the custom-services loop on an affirmative answer. */
  lemma CustomStep(prefix: seq<string>, answers: seq<string>)
    requires |answers| >= 2 && IsYes(answers[0])
    ensures Prepend(prefix, CustomServices(answers))
            == Prepend(prefix + [answers[1]], CustomServices(answers[2..]))
  {
    var tail := CustomServices(answers[2..]);
    if tail.Done? {
      AppendAssoc(prefix, [answers[1]], tail.value);
    }
  }

  /** What answer `k` adds to the services of `menu`. */
  function Chosen(menu: seq<string>, replies: seq<string>, k: nat): seq<string>
    requires k < |menu| && k < |replies|
  {
    if IsYes(replies[k]) then [menu[k]] else []
  }

  /** `Pick` over a five-entry menu, written out in the order of the
      questions. */
  lemma PickFive(menu: seq<string>, replies: seq<string>)
    requires |menu| == 5 && |replies| == 5
    ensures Pick(menu, replies)
            == Chosen(menu, replies, 0) + Chosen(menu, replies, 1) + Chosen(menu, replies, 2)
               + Chosen(menu, replies, 3) + Chosen(menu, replies, 4)
  {
    var m, r := menu, replies;
    var c0, c1, c2, c3, c4 := Chosen(m, r, 0), Chosen(m, r, 1), Chosen(m, r, 2), Chosen(m, r, 3), Chosen(m, r, 4);
    assert Pick(m[4..], r[4..]) == c4 by {
      assert m[4..][1..] == [];
    }
    assert m[3..][1..] == m[4..] && r[3..][1..] == r[4..];
    assert Pick(m[3..], r[3..]) == c3 + c4;
    assert m[2..][1..] == m[3..] && r[2..][1..] == r[3..];
    assert Pick(m[2..], r[2..]) == c2 + (c3 + c4);
    assert m[1..][1..] == m[2..] && r[1..][1..] == r[2..];
    assert Pick(m[1..], r[1..]) == c1 + (c2 + (c3 + c4));
    assert Pick(m, r) == c0 + (c1 + (c2 + (c3 + c4)));
    AppendAssoc(c2, c3, c4);
    AppendAssoc(c1, c2 + c3, c4);
    AppendAssoc(c1, c2, c3);
    AppendAssoc(c0, c1 + c2 + c3, c4);
    AppendAssoc(c0, c1 + c2, c3);
    AppendAssoc(c0, c1, c2);
  }

  /** The five questions of `get_user_input` about the offered services:
      each service is appended when its answer is affirmative. */
  method OfferedServices(replies: seq<string>) returns (services: seq<string>)
    requires |replies| == 5
    ensures services == Pick(CannedServices, replies)
  {
    ghost var menu := CannedServices;
    services := [];
    if IsYes(replies[0]) {
      services := services + [CannedServices[0]];
    }
    assert services == Chosen(menu, replies, 0);
    if IsYes(replies[1]) {
      services := services + [CannedServices[1]];
    }
    assert services == Chosen(menu, replies, 0) + Chosen(menu, replies, 1);
    if IsYes(replies[2]) {
      services := services + [CannedServices[2]];
    }
    assert services == Chosen(menu, replies, 0) + Chosen(menu, replies, 1) + Chosen(menu, replies, 2);
    if IsYes(replies[3]) {
      services := services + [CannedServices[3]];
    }
    assert services == Chosen(menu, replies, 0) + Chosen(menu, replies, 1) + Chosen(menu, replies, 2)
                       + Chosen(menu, replies, 3);
    if IsYes(replies[4]) {
      services := services + [CannedServices[4]];
    }
    PickFive(CannedServices, replies);
  }

  /** The collecting of `get_user_input`, step by step: the five offered
      services, then the loop of custom services, each appended on an
      affirmative answer. */
  method CollectServices(answers: seq<string>) returns (r: Prompted<seq<string>>)
    ensures r == ServicesFromAnswers(answers)
  {
    if |answers| < 5 {
      return EndOfInput;
    }
    var services := OfferedServices(answers[..5]);
    var i := 5;
    while true
      invariant 5 <= i <= |answers|
      invariant ServicesFromAnswers(answers) == Prepend(services, CustomServices(answers[i..]))
      decreases |answers| - i
    {
      if i == |answers| {
        return EndOfInput;
      }
      if !IsYes(answers[i]) {
        assert answers[i..][1..] == answers[i + 1..];
        assert services + [] == services;
        return Done(services, answers[i + 1..]);
      }
      if i + 1 == |answers| {
        return EndOfInput;
      }
      CustomStep(services, answers[i..]);
      assert answers[i..][2..] == answers[i + 2..];
      services := services + [answers[i + 1]];
      i := i + 2;
    }
  }

  /** `input(...) or "50"`: an empty answer means the default share of 50. */
  function WithDefault(answer: string): (share: string)
    ensures answer == "" ==> share == "50"
    ensures answer != "" ==> share == answer
    ensures share != ""
  {
    if answer == "" then "50" else answer
  }

  /** The `payment_terms` entry of the record. */
  datatype PaymentTerms = PaymentTerms(advance: string, remaining: string)

  /** The record `get_user_input` returns. The two fees stay the text that
      was typed. */
  datatype SlaRecord = SlaRecord(
    currentDate: string,
    refNumber: string,
    clientName: string,
    commercialRegistrationNumber: string,
    attention: string,
    email: string,
    vatRegistrationFee: string,
    consultancyFee: string,
    authorizedPersonName: string,
    additionalServices: seq<string>,
    paymentTerms: PaymentTerms)

  /** `get_user_input`: client name, CR number, contact person, e-mail, the
      two fees and the reference sequence number, then the services, then
      the two payment shares, one answer each, in that order. */
  method GetUserInput(answers: seq<string>, today: Date) returns (r: Prompted<SlaRecord>)
    requires Valid(today)
    ensures |answers| < 7 ==> r == EndOfInput
    ensures |answers| >= 7 ==>
              var services := ServicesFromAnswers(answers[7..]);
              && (r.Done? <==> services.Done? && |services.rest| >= 2)
              && (r.Done? ==>
                    && r.value == SlaRecord(
                         Text(today), Reference.RefNumber(today, answers[6]),
                         answers[0], answers[1], answers[2], answers[3], answers[4], answers[5],
                         answers[2], services.value,
                         PaymentTerms(WithDefault(services.rest[0]), WithDefault(services.rest[1])))
                    && r.rest == services.rest[2..])
  {
    if |answers| < 7 {
      return EndOfInput;
    }
    var clientName := answers[0];
    var crNumber := answers[1];
    var attention := answers[2];
    var email := answers[3];
    var vatRegistrationFee := answers[4];
    var consultancyFee := answers[5];
    var refNumber := Reference.RefNumber(today, answers[6]);
    var collected := CollectServices(answers[7..]);
    if collected.EndOfInput? || |collected.rest| < 2 {
      return EndOfInput;
    }
    var advance := WithDefault(collected.rest[0]);
    var remaining := WithDefault(collected.rest[1]);
    var record := SlaRecord(
      Text(today), refNumber, clientName, crNumber, attention, email,
      vatRegistrationFee, consultancyFee, attention, collected.value,
      PaymentTerms(advance, remaining));
    return Done(record, collected.rest[2..]);
  }

  /** The bullet lines of `format_services_list`: "- " before every entry,
      blank or not, nothing trimmed. */
  function Bullets(services: seq<string>): (lines: seq<string>)
    ensures |lines| == |services|
    ensures forall i :: 0 <= i < |services| ==> lines[i] == "- " + services[i]
  {
    if services == [] then [] else ["- " + services[0]] + Bullets(services[1..])
  }

  /** `format_services_list(services)` of test.py: empty exactly when there
      are no services, since an empty entry still gives its "- " line. */
  function FormatServicesList(services: seq<string>): (text: string)
    ensures text == "" <==> services == []
  {
    var lines := Bullets(services);
    JoinIsEmpty(lines, "\n");
    assert services != [] ==> |lines[0]| >= 2;
    Join(lines, "\n")
  }

  /** When no entry holds a newline, the text splits back into one line per
      entry, each entry behind its "- ". */
  lemma FormatServicesListLines(services: seq<string>)
    requires services != []
    requires forall i :: 0 <= i < |services| ==> '\n' !in services[i]
    ensures Split(FormatServicesList(services), '\n') == Bullets(services)
  {
    var lines := Bullets(services);
    forall j | 0 <= j < |lines| ensures '\n' !in lines[j] {
      assert lines[j] == "- " + services[j];
    }
    SplitJoin(lines, '\n');
  }

  /** `format_payment_terms(terms)` of test.py: the same three lines as the
      web form's, read from the `advance` and `remaining` entries. */
  function FormatPaymentTerms(terms: PaymentTerms): (text: string)
    ensures text == WebForm.FormatPaymentTerms(terms.advance, terms.remaining)
  {
    "- " + terms.advance + WebForm.AdvanceClause + "\n"
    + "- Remaining " + terms.remaining + WebForm.RemainingClause + "\n"
    + WebForm.NonRefundable
  }

  /** The output file name: `SLA_<client name, spaces as '_'>_<YYYYMMDD>.pdf`. */
  function OutputFilename(clientName: string, today: Date): (f: string)
    requires Valid(today)
    ensures |f| == |clientName| + 17
    ensures f[..4] == "SLA_" && f[|f| - 4..] == ".pdf"
  {
    var name, stamp := Replace(clientName, ' ', '_'), Stamp(today);
    Ends("SLA_", name + "_" + stamp, ".pdf");
    "SLA_" + name + "_" + stamp + ".pdf"
  }

  lemma Ends(a: string, b: string, c: string)
    ensures var f := a + b + c; |f| == |a| + |b| + |c| && f[..|a|] == a && f[|f| - |c|..] == c
  {
  }

  lemma Parts5(a: string, b: string, c: string, d: string, e: string, x: char)
    requires x !in a && x !in b && x !in c && x !in d && x !in e
    ensures var f := a + b + c + d + e;
            && f[..|a|] == a && f[|a|..|a| + |b|] == b
            && f[|a| + |b|..|a| + |b| + |c|] == c
            && f[|a| + |b| + |c|..|a| + |b| + |c| + |d|] == d
            && f[|a| + |b| + |c| + |d|..] == e
            && x !in f
  {
  }

  /** The file name is "SLA_", the client name with every space turned into
      '_', '_', the eight-digit date and ".pdf"; it holds no space. */
  lemma OutputFilenameShape(clientName: string, today: Date)
    requires Valid(today)
    ensures var f, n := OutputFilename(clientName, today), |clientName|;
            && |f| == n + 17
            && f[..4] == "SLA_" && f[4..4 + n] == Replace(clientName, ' ', '_')
            && f[4 + n] == '_' && f[5 + n..13 + n] == Stamp(today) && f[13 + n..] == ".pdf"
            && ' ' !in f
  {
    var name, stamp := Replace(clientName, ' ', '_'), Stamp(today);
    ReplaceRemoves(clientName, ' ', '_');
    DigitsHaveNoSpace(stamp);
    assert ' ' !in ".pdf" && ' ' !in "SLA_" && ' ' !in "_";
    Parts5("SLA_", name, "_", stamp, ".pdf", ' ');
  }

  /** A client name without '_' can be read back from the file name. */
  lemma OutputFilenameName(clientName: string, today: Date)
    requires Valid(today) && '_' !in clientName
    ensures var f, n := OutputFilename(clientName, today), |clientName|;
            Replace(f[4..4 + n], '_', ' ') == clientName
  {
    OutputFilenameShape(clientName, today);
    var back := Replace(Replace(clientName, ' ', '_'), '_', ' ');
    assert forall i :: 0 <= i < |clientName| ==> back[i] == clientName[i];
  }
}
