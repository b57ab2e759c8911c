# Certificate verification: the matching rule

A small web tool takes an uploaded image of a certificate, turns it into text with OCR, and checks that text against a reference table of issued certificates. Each row holds an identifier, a holder name and some other columns (roll number, marks, institution, course). `verify_certificate` in `newapp.py` walks the table in its stored order. It returns the first row whose identifier occurs in the text exactly, case included, and whose name occurs in the text once both are lowercased. The result is that row with `True`, or `None, False` when no row matches. The page then shows a warning if the table is empty, the matched row on success, or a failure message.

This project models that rule and the choice among the three outcomes:

- `wrappers.dfy`, module `Wrappers`: `Option`, which stands in for Python's `None`.
- `text.dfy`, module `Text`:
  - `Contains`, Python's `pat in text` as a scan over start positions. It is proved equal to a reference definition of "is a substring".
  - `Lower`, an ASCII-only `str.lower()`.
- `verifier.dfy`, module `Verifier`:
  - `Record`, a table row.
  - `Table`, the rows in their stored order.
  - The row predicate `Matches`.
  - `VerifyCertificate`, the find-first scan. It is written as a recursive function because the source loop changes no state and returns early.
  - Lemmas: the returned row is the first matching row, the scan stops at the first match, an empty table never verifies, empty text verifies only when a row has an empty identifier and an empty name, and the name test ignores case.
- `app.dfy`, module `App`:
  - `SelectOutcome`, the warning / verified / not-found branching.
  - Three scenarios on the sample table printed on the page.

The table is a value (`seq<Record>`), so the scan cannot modify it. A match returns the row itself, so every extra column comes back unchanged.

## Model

| member | source | states |
|---|---|---|
| `Text.ContainsIsSubstring` | newapp.py:33 | The scan used for `in` is true exactly when some position of the text starts a copy of the pattern (both directions). |
| `Text.ContainsInEmpty` | newapp.py:33 | Only the empty string occurs in empty text. |
| `Text.LowerIdempotent` | newapp.py:33 | Lowercasing text that is already lowercased changes nothing. |
| `Text.ContainsLower` | newapp.py:33 | If the pattern occurs exactly, it also occurs after both sides are lowercased with the ASCII `Lower`. So the model's name test accepts any exact occurrence (see "## Left out" for where Python's `lower()` differs). |
| `Verifier.VerifyCertificate` | newapp.py:29-35 | The flag is `true` exactly when a record is returned, so `(row, false)` and `(None, true)` never occur. A returned record is a row of the table and passes both tests. `None` is returned exactly when no row of the table passes. |
| `Verifier.FirstMatchReturned` | newapp.py:30-34 | If row `k` matches and no earlier row does, the result is `(Some(table[k]), true)`: that row verbatim. |
| `Verifier.ReturnedIsFirstMatch` | newapp.py:30-34 | A successful result is the first matching row in table order. No earlier row matches. |
| `Verifier.MatchingRowVerifies` | newapp.py:30-34 | If some row `k` matches, the check succeeds and returns row `k` or an earlier matching row. |
| `Verifier.LaterRowsIgnored` | newapp.py:33-34 | After a match the scan stops. Appending rows to the table does not change a successful result. |
| `Verifier.EmptyTableRejects` | newapp.py:30-35 | An empty table gives `(None, false)` for every text. |
| `Verifier.EmptyTextVerdict` | newapp.py:33 | Empty text verifies exactly when some row has an empty identifier and an empty name. |
| `Verifier.NameTestIgnoresCase` | newapp.py:33 | Lowercasing the text first does not change the outcome of the name test. |
| `Verifier.VerbatimRowMatches` | newapp.py:33 | With ASCII lowercasing, a row whose identifier and name both occur verbatim in the text matches (see "## Left out" for where Python's `lower()` differs). |
| `App.SelectOutcome` | newapp.py:54-62 | The outcome is the warning exactly when the table is empty. It is `Verified(r)` only when the scan returned `(Some(r), true)`. It is not-found exactly when the table is non-empty and no row matches. |
| `App.EmptyTextOutcome` | newapp.py:54-60 | With a non-empty table and empty text (what a failed extraction yields), the page reports not-found unless some row has an empty identifier and an empty name. |
| `App.SampleVerified` | newapp.py:54-58 | On the sample table, a text with `CERT001` and the name in other case returns the first sample row with all its columns. |
| `App.SampleIdCaseSensitive` | newapp.py:33 | On the sample table, a lowercased identifier (`cert001 john doe`) is not-found. The identifier test is case-sensitive. |
| `App.SampleNameRequired` | newapp.py:33 | On the sample table, the identifier without the holder name is not-found. |

## Left out

- `load_certificate_db` (newapp.py:13-18): the file check, CSV parsing and caching are I/O. The table is a parameter of type `seq<Record>`. A missing file gives the empty table, which `SelectOutcome` covers.
- `extract_text_from_uploaded_file` (newapp.py:20-27): image decoding and OCR are foreign code. The text is an arbitrary `string` parameter. The failure path, which returns empty text, is covered by `Verifier.EmptyTextVerdict` and `App.EmptyTextOutcome`.
- The page rendering (newapp.py:39-53, the display calls in 56-62, and 64-74) is presentation only. `App.Outcome` records which of the three messages is shown.
- `Text.Lower`: lowercases ASCII `A`-`Z` only. Python's `str.lower()` applies full Unicode case mapping, which can change non-ASCII letters and even the length of the string.
- `Text.ContainsLower`: holds for ASCII lowercasing only. Python's `str.lower()` maps a capital sigma by context: to final sigma at the end of a word, to ordinary sigma elsewhere. With name `"ΑΣ"` and text `"ΑΣΑ CERT001"`, the name lowers to `"ας"` and the text to `"ασα cert001"`, so an exact occurrence of the name does not survive lowering.
- `Verifier.VerbatimRowMatches`: holds for ASCII lowercasing only. The row `("CERT001", "ΑΣ")` and the text `"ΑΣΑ CERT001"` are a counterexample: newapp.py:33 rejects the row because of the context-dependent sigma above, while the model accepts it.
- `str(...)` on the table cells and `row.to_dict()` (newapp.py:31-32, 34): the fields are modelled as strings directly. A missing cell, which pandas would turn into the text `nan`, is not modelled. The returned row is the `Record` itself, with the other columns as an opaque `map<string, string>`; the key order of the dict is not modelled.
- `cert_db.empty` (newapp.py:54) is modelled as "the table has no rows". A table with rows but no columns cannot be represented, because every `Record` has an identifier and a name. For the same reason, a non-empty table that lacks a `certificate_id` or `name` column cannot be represented. On such a table, newapp.py:31-32 raises `KeyError`, and the page shows none of the three outcomes.
