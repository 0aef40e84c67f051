/** How the two entry points differ in building the services list: the web
    form strips every entry and drops the blank ones, the interactive
    generator writes every entry as typed. */
module Variants {
  import opened PyText
  import opened ListComp
  import WebForm
  import CliPrompts

  /** An entry as the web form keeps it: stripped, or nothing when blank. */
  function CleanEntry(entry: string): (kept: seq<string>)
    ensures |kept| <= 1
    ensures kept == [] <==> AllSpace(entry)
  {
    var s := Strip(entry);
    if s == "" then [] else [s]
  }

  /** The entries stripped, the blank ones left out, in order. */
  function Cleaned(services: seq<string>): seq<string>
  {
    FlatMap(CleanEntry, services)
  }

  lemma {:induction false} BulletsAppend(a: seq<string>, b: seq<string>)
    ensures CliPrompts.Bullets(a + b) == CliPrompts.Bullets(a) + CliPrompts.Bullets(b)
  {
    if a == [] {
      assert a + b == b;
    } else {
      var ab := a + b;
      assert ab[0] == a[0] && ab[1..] == a[1..] + b;
      BulletsAppend(a[1..], b);
      AppendAssoc(["- " + a[0]], CliPrompts.Bullets(a[1..]), CliPrompts.Bullets(b));
    }
  }

  /** The web form's lines are the interactive generator's bullets of the
      cleaned entries. */
  lemma {:induction false} ServiceLinesAreBullets(services: seq<string>)
    ensures WebForm.ServiceLines(services) == CliPrompts.Bullets(Cleaned(services))
  {
    if services != [] {
      var e := services[0];
      ServiceLinesAreBullets(services[1..]);
      BulletsAppend(CleanEntry(e), Cleaned(services[1..]));
      assert CliPrompts.Bullets(CleanEntry(e)) == WebForm.EntryLine(e);
    }
  }

  /** The web form's list is the interactive generator's list of the cleaned
      entries: both builders join the same bullets with newlines. */
  lemma FormatServicesListsAgree(services: seq<string>)
    ensures WebForm.FormatServicesList(services) == CliPrompts.FormatServicesList(Cleaned(services))
  {
    ServiceLinesAreBullets(services);
  }

  /** On entries that are neither blank nor padded the two lists agree. */
  lemma {:induction false} CleanedKeeps(services: seq<string>)
    requires forall i :: 0 <= i < |services| ==> Strip(services[i]) == services[i] != ""
    ensures Cleaned(services) == services
  {
    if services != [] {
      CleanedKeeps(services[1..]);
      assert CleanEntry(services[0]) == [services[0]];
      assert services == [services[0]] + services[1..];
    }
  }

  /** A blank entry adds no line to the web form's list. */
  lemma BlankEntryWeb(before: seq<string>, entry: string, after: seq<string>)
    requires AllSpace(entry)
    ensures WebForm.ServiceLines(before + [entry] + after)
            == WebForm.ServiceLines(before) + WebForm.ServiceLines(after)
  {
    var lb, le, la := WebForm.ServiceLines(before), WebForm.ServiceLines([entry]), WebForm.ServiceLines(after);
    assert le == WebForm.EntryLine(entry) + FlatMap(WebForm.EntryLine, []) by {
      assert [entry][1..] == [];
    }
    assert le == [];
    WebForm.ServiceLinesAppend(before + [entry], after);
    WebForm.ServiceLinesAppend(before, [entry]);
    assert lb + le == lb;
  }

  /** A blank entry adds a bare "- " line to the interactive generator's
      list. */
  lemma BlankEntryCli(before: seq<string>, entry: string, after: seq<string>)
    ensures CliPrompts.Bullets(before + [entry] + after)
            == CliPrompts.Bullets(before) + ["- " + entry] + CliPrompts.Bullets(after)
  {
    BulletsAppend(before + [entry], after);
    BulletsAppend(before, [entry]);
  }

  /** The interactive generator keeps a blank entry as a bare "- ". */
  lemma CliListExample()
    ensures CliPrompts.FormatServicesList(["VAT Registration", ""]) == "- VAT Registration\n- "
  {
  }
}
