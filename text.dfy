/**
  The two string operations the certificate check is built from: Python's
  substring test `pat in text`, and `str.lower()`, here restricted to ASCII.
 */
module Text {

  /** `pat` occurs in `text` starting at index `i`. */
  ghost predicate OccursAt(pat: string, text: string, i: int)
  {
    0 <= i && i + |pat| <= |text| && text[i..i + |pat|] == pat
  }

  /** The reference meaning of `pat in text`: some position of `text` starts a copy of `pat`. */
  ghost predicate IsSubstring(pat: string, text: string)
  {
    exists i :: OccursAt(pat, text, i)
  }

  /** Python's `pat in text`, as a left-to-right scan over the start positions. */
  function Contains(pat: string, text: string): bool
    decreases |text|
  {
    if |text| < |pat| then false
    else if text[..|pat|] == pat then true
    else Contains(pat, text[1..])
  }

  /** Dropping the first character of the text shifts every occurrence one position left. */
  lemma OccursShift(pat: string, text: string, i: int)
    requires |text| > 0 && 0 <= i
    ensures OccursAt(pat, text[1..], i) <==> OccursAt(pat, text, i + 1)
  {
    if i + |pat| <= |text[1..]| {
      assert text[1..][i..i + |pat|] == text[i + 1..i + 1 + |pat|];
    }
  }

  /** The scan agrees with the reference meaning on every pair of strings. */
  lemma {:induction false} ContainsIsSubstring(pat: string, text: string)
    ensures Contains(pat, text) <==> IsSubstring(pat, text)
    decreases |text|
  {
    if |text| < |pat| {
      assert forall i :: !OccursAt(pat, text, i);
    } else if text[..|pat|] == pat {
      assert OccursAt(pat, text, 0);
    } else {
      assert |text| > 0;
      ContainsIsSubstring(pat, text[1..]);
      if Contains(pat, text[1..]) {
        var i :| OccursAt(pat, text[1..], i);
        OccursShift(pat, text, i);
      }
      if IsSubstring(pat, text) {
        var i :| OccursAt(pat, text, i);
        assert i != 0;
        OccursShift(pat, text, i - 1);
      }
    }
  }

  /** A non-empty pattern whose first character never appears in the text does not occur in it. */
  lemma AbsentFirstChar(pat: string, text: string)
    requires |pat| > 0 && pat[0] !in text
    ensures !Contains(pat, text)
  {
    ContainsIsSubstring(pat, text);
  }

  /** Only the empty string occurs in the empty text. */
  lemma ContainsInEmpty(pat: string)
    ensures Contains(pat, "") <==> pat == ""
  {
  }

  /** ASCII lowercase: 'A'..'Z' become 'a'..'z', every other character is kept. */
  function LowerChar(c: char): char
  {
    if 'A' <= c <= 'Z' then (c as int - 'A' as int + 'a' as int) as char else c
  }

  /** `s.lower()` for ASCII text. */
  function Lower(s: string): string
  {
    seq(|s|, i requires 0 <= i < |s| => LowerChar(s[i]))
  }

  /** A lowercased character has no upper-case ASCII letter left, and lowering it again changes nothing. */
  lemma LowerCharIsLower(c: char)
    ensures !('A' <= LowerChar(c) <= 'Z')
    ensures LowerChar(LowerChar(c)) == LowerChar(c)
  {
  }

  /** Lowering is idempotent: lowercasing already-lowered text leaves it unchanged. */
  lemma LowerIdempotent(s: string)
    ensures Lower(Lower(s)) == Lower(s)
  {
    forall i | 0 <= i < |s|
      ensures Lower(Lower(s))[i] == Lower(s)[i]
    {
      LowerCharIsLower(s[i]);
    }
  }

  /** Lowering commutes with taking a slice. */
  lemma LowerSlice(s: string, i: int, j: int)
    requires 0 <= i <= j <= |s|
    ensures Lower(s[i..j]) == Lower(s)[i..j]
  {
  }

  /** An exact occurrence survives lowercasing both sides: case-insensitive search finds whatever exact search finds. */
  lemma ContainsLower(pat: string, text: string)
    ensures Contains(pat, text) ==> Contains(Lower(pat), Lower(text))
  {
    ContainsIsSubstring(pat, text);
    ContainsIsSubstring(Lower(pat), Lower(text));
    if Contains(pat, text) {
      var i :| OccursAt(pat, text, i);
      LowerSlice(text, i, i + |pat|);
      assert OccursAt(Lower(pat), Lower(text), i);
    }
  }
}
