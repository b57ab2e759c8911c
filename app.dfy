/**
  What the page shows after an upload: a warning when the reference table is
  empty (the scan is skipped), otherwise the matched record or a failure
  message. The rendering itself is not modelled, only the choice between the
  three outcomes.
 */
module App {
  import opened Wrappers
  import opened Text
  import opened Verifier

  datatype Outcome =
    | DatabaseWarning          // "database is empty or missing"
    | Verified(record: Record) // success banner and the record shown as JSON
    | NotFound                 // "not found or appears invalid"

  /** The branching on the table and on the scan's flag. */
  function SelectOutcome(text: string, table: Table): (o: Outcome)
    ensures o == DatabaseWarning <==> |table| == 0
    ensures o.Verified? ==> VerifyCertificate(text, table) == (Some(o.record), true)
    ensures o.Verified? ==> o.record in table && Matches(text, o.record)
    ensures o == NotFound <==> |table| > 0 && forall r :: r in table ==> !Matches(text, r)
  {
    if |table| == 0 then DatabaseWarning
    else
      var (result, isValid) := VerifyCertificate(text, table);
      if isValid then Verified(result.value) else NotFound
  }

  /**
    A failed extraction yields empty text; with a non-empty table the page
    then reports "not found", unless some row has an empty identifier and an
    empty name.
   */
  lemma EmptyTextOutcome(table: Table)
    requires |table| > 0
    requires forall r :: r in table ==> r.certificateId != "" || r.name != ""
    ensures SelectOutcome("", table) == NotFound
  {
    EmptyTextVerdict(table);
  }

  /** The two sample rows shown on the page. */
  function SampleTable(): Table
  {
    [ Record("CERT001", "John Doe",
             map["roll_number" := "2021001", "marks" := "88",
                 "institution" := "ABC University", "course" := "BSc Computer Science"]),
      Record("CERT002", "Jane Smith",
             map["roll_number" := "2021002", "marks" := "91",
                 "institution" := "XYZ Institute", "course" := "BCom"]) ]
  }

  /** Both tests pass on a text holding the identifier verbatim and the name in other case. */
  lemma JohnDoeMatches(attributes: map<string, string>)
    ensures Matches("JOHN doe CERT001", Record("CERT001", "John Doe", attributes))
  {
    var text := "JOHN doe CERT001";
    assert text[9..16] == "CERT001";
    assert OccursAt("CERT001", text, 9);
    ContainsIsSubstring("CERT001", text);
    var name := "John Doe";
    assert Lower(name) == "john doe";
    LowerSlice(text, 0, 8);
    assert text[..8] == "JOHN doe";
    assert Lower(text)[..8] == "john doe";
  }

  /** The identifier and the name in any case: the first sample row is returned, all its columns included. */
  lemma SampleVerified()
    ensures SelectOutcome("JOHN doe CERT001", SampleTable()) == Verified(SampleTable()[0])
  {
    JohnDoeMatches(SampleTable()[0].attributes);
    FirstMatchReturned("JOHN doe CERT001", SampleTable(), 0);
  }

  /** The identifier test is case-sensitive: a lowercased identifier does not verify. */
  lemma SampleIdCaseSensitive()
    ensures SelectOutcome("cert001 john doe", SampleTable()) == NotFound
  {
    var text := "cert001 john doe";
    assert 'C' !in text;
    AbsentFirstChar("CERT001", text);
    AbsentFirstChar("CERT002", text);
  }

  /** The identifier alone is not enough: the holder's name must occur too. */
  lemma SampleNameRequired()
    ensures SelectOutcome("CERT001", SampleTable()) == NotFound
  {
    var text := "CERT001";
    assert !NamePresent(text, SampleTable()[0]);
    assert !NamePresent(text, SampleTable()[1]);
  }
}
