/**
  The certificate check: a scan of the reference table, in table order, for
  the first record whose identifier occurs verbatim in the extracted text and
  whose holder name occurs in it when both are lowercased.
 */
module Verifier {
  import opened Wrappers
  import opened Text

  /**
    One row of the reference table. `attributes` holds every other column
    (roll number, marks, institution, course, ...), carried opaquely.
   */
  datatype Record = Record(certificateId: string, name: string, attributes: map<string, string>)

  /** The reference table, in its stored row order. */
  type Table = seq<Record>

  /** The identifier test: exact and case-sensitive. */
  predicate IdPresent(text: string, r: Record)
  {
    Contains(r.certificateId, text)
  }

  /** The name test: both the name and the text are lowercased first. */
  predicate NamePresent(text: string, r: Record)
  {
    Contains(Lower(r.name), Lower(text))
  }

  /** The row predicate the scan tests. */
  predicate Matches(text: string, r: Record)
  {
    IdPresent(text, r) && NamePresent(text, r)
  }

  /**
    The scan: the first matching row and `true`, or `None` and `false`.
    The flag is set exactly when a record is returned; a returned record is a
    row of the table that matches; `None` means that no row matches.
   */
  function VerifyCertificate(text: string, table: Table): (res: (Option<Record>, bool))
    ensures res.1 <==> res.0.Some?
    ensures res.0.Some? ==> res.0.value in table && Matches(text, res.0.value)
    ensures res.0.None? <==> forall r :: r in table ==> !Matches(text, r)
  {
    if |table| == 0 then (None, false)
    else if Matches(text, table[0]) then (Some(table[0]), true)
    else VerifyCertificate(text, table[1..])
  }

  /** Row `k` matches and no row before it does. */
  ghost predicate FirstMatchAt(text: string, table: Table, k: int)
  {
    0 <= k < |table| && Matches(text, table[k]) &&
    forall j :: 0 <= j < k ==> !Matches(text, table[j])
  }

  /** When row `k` is the first matching row, the scan returns that row, verbatim, with `true`. */
  lemma {:induction false} FirstMatchReturned(text: string, table: Table, k: int)
    requires FirstMatchAt(text, table, k)
    ensures VerifyCertificate(text, table) == (Some(table[k]), true)
    decreases |table|
  {
    if k > 0 {
      assert !Matches(text, table[0]);
      assert FirstMatchAt(text, table[1..], k - 1);
      FirstMatchReturned(text, table[1..], k - 1);
    }
  }

  /** Conversely, whatever the scan returns is the first matching row: no earlier row matches. */
  lemma {:induction false} ReturnedIsFirstMatch(text: string, table: Table)
    requires VerifyCertificate(text, table).1
    ensures exists k :: FirstMatchAt(text, table, k) && VerifyCertificate(text, table).0 == Some(table[k])
    decreases |table|
  {
    if !Matches(text, table[0]) {
      ReturnedIsFirstMatch(text, table[1..]);
      var k :| FirstMatchAt(text, table[1..], k) && VerifyCertificate(text, table[1..]).0 == Some(table[1..][k]);
      assert FirstMatchAt(text, table, k + 1);
    } else {
      assert FirstMatchAt(text, table, 0);
    }
  }

  /** An empty table never verifies, whatever the text. */
  lemma EmptyTableRejects(text: string)
    ensures VerifyCertificate(text, []) == (None, false)
  {
  }

  /** The scan stops at the first match: rows appended after it are never consulted. */
  lemma {:induction false} LaterRowsIgnored(text: string, table: Table, more: Table)
    requires VerifyCertificate(text, table).1
    ensures VerifyCertificate(text, table + more) == VerifyCertificate(text, table)
  {
    ReturnedIsFirstMatch(text, table);
    var k :| FirstMatchAt(text, table, k) && VerifyCertificate(text, table).0 == Some(table[k]);
    assert FirstMatchAt(text, table + more, k);
    FirstMatchReturned(text, table + more, k);
  }

  /**
    On empty text (what a failed extraction yields) the check succeeds exactly
    when the table holds a row whose identifier and name are both empty.
   */
  lemma EmptyTextVerdict(table: Table)
    ensures VerifyCertificate("", table).1 <==>
            exists r :: r in table && r.certificateId == "" && r.name == ""
  {
    forall r | r in table
      ensures Matches("", r) <==> r.certificateId == "" && r.name == ""
    {
      ContainsInEmpty(r.certificateId);
      ContainsInEmpty(Lower(r.name));
    }
  }

  /** The name test ignores case: lowercasing the text first does not change its outcome. */
  lemma NameTestIgnoresCase(text: string, r: Record)
    ensures NamePresent(Lower(text), r) == NamePresent(text, r)
  {
    LowerIdempotent(text);
  }

  /** A row whose identifier and name both occur verbatim in the text matches. */
  lemma VerbatimRowMatches(text: string, r: Record)
    requires Contains(r.certificateId, text) && Contains(r.name, text)
    ensures Matches(text, r)
  {
    ContainsLower(r.name, text);
  }

  /**
    Any row satisfying the predicate makes the check succeed, with that row or
    an earlier one that also satisfies it.
   */
  lemma {:induction false} MatchingRowVerifies(text: string, table: Table, k: int)
    requires 0 <= k < |table| && Matches(text, table[k])
    ensures VerifyCertificate(text, table).1
    ensures exists j :: 0 <= j <= k && VerifyCertificate(text, table).0 == Some(table[j]) && Matches(text, table[j])
  {
    ReturnedIsFirstMatch(text, table);
    var j :| FirstMatchAt(text, table, j) && VerifyCertificate(text, table).0 == Some(table[j]);
  }
}
