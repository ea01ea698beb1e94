/** Telling a unique-constraint violation apart from every other database
    error, by looking for the server's wording in the error's text. */
module Errors {
  import opened Schema

  const UniqueViolationText := "duplicate key value violates unique constraint"

  /** `String(error)` for an error the server raised: its name ("error"),
      then its message. Every `DbError` is stringified this way. */
  function ErrorString(e: DbError): (r: string)
    ensures |r| == 7 + |e.message| && r[..7] == "error: "
    ensures OccursAt(r, e.message, 7)
  {
    "error: " + e.message
  }

  /** `pattern` occurs in `text` starting at index `i`. */
  predicate OccursAt(text: string, pattern: string, i: nat)
  {
    i + |pattern| <= |text| && text[i..i + |pattern|] == pattern
  }

  /** An unanchored regular-expression test for a pattern without special
      characters: does `pattern` occur anywhere in `text`? */
  predicate Contains(text: string, pattern: string)
  {
    (|pattern| <= |text| && text[..|pattern|] == pattern)
    || (text != [] && Contains(text[1..], pattern))
  }

  lemma ContainsMeans(text: string, pattern: string)
    ensures Contains(text, pattern) <==> exists i: nat :: OccursAt(text, pattern, i)
  {
    if exists i: nat :: OccursAt(text, pattern, i) {
      var i: nat :| OccursAt(text, pattern, i);
      OccursAtContains(text, pattern, i);
    }
    if Contains(text, pattern) {
      var i := ContainsWitness(text, pattern);
    }
  }

  lemma {:induction false} ContainsWitness(text: string, pattern: string) returns (i: nat)
    requires Contains(text, pattern)
    ensures OccursAt(text, pattern, i)
  {
    if |pattern| <= |text| && text[..|pattern|] == pattern {
      i := 0;
    } else {
      var j := ContainsWitness(text[1..], pattern);
      i := j + 1;
      assert text[1..][j..j + |pattern|] == text[i..i + |pattern|];
    }
  }

  lemma {:induction false} OccursAtContains(text: string, pattern: string, i: nat)
    requires OccursAt(text, pattern, i)
    ensures Contains(text, pattern)
  {
    if i > 0 {
      assert text[1..][i - 1..i - 1 + |pattern|] == text[i..i + |pattern|];
      OccursAtContains(text[1..], pattern, i - 1);
    }
  }

  /** `isUniqueConstraintViolation`: holds exactly when the error's text
      contains the server's wording for a unique-constraint violation. */
  predicate IsUniqueConstraintViolation(error: DbError)
    ensures IsUniqueConstraintViolation(error) <==>
      exists i: nat :: OccursAt(ErrorString(error), UniqueViolationText, i)
  {
    ContainsMeans(ErrorString(error), UniqueViolationText);
    Contains(ErrorString(error), UniqueViolationText)
  }

  /** The error the server raises for a second list with the same title is
      recognised as a unique-constraint violation. */
  lemma TitleTakenIsUniqueViolation()
    ensures IsUniqueConstraintViolation(TitleTakenError)
  {
    var m, u := TitleTakenError.message, UniqueViolationText;
    assert m == u + " \"workoutlists_title_key\"";
    PrefixOccurs(ErrorString(TitleTakenError), m, u, 7);
  }

  /** A prefix of a pattern occurs wherever the pattern does. */
  lemma PrefixOccurs(text: string, pattern: string, prefix: string, i: nat)
    requires OccursAt(text, pattern, i)
    requires prefix <= pattern
    ensures OccursAt(text, prefix, i)
  {
  }
}
