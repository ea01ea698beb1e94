/** The string order PostgreSQL applies for `ORDER BY lower(title)`.
    `lower` is ASCII case folding and strings compare code point by code
    point (the "C" collation). */
module Collation {

  function LowerChar(c: char): char
  {
    if 'A' <= c <= 'Z' then (c as int + ('a' as int - 'A' as int)) as char else c
  }

  /** `lower(s)` */
  function Lower(s: string): string
  {
    seq(|s|, i requires 0 <= i < |s| => LowerChar(s[i]))
  }

  /** Lexicographic order on strings; a proper prefix comes first. */
  predicate StrLe(a: string, b: string)
  {
    if a == [] then true
    else if b == [] then false
    else if a[0] != b[0] then a[0] < b[0]
    else StrLe(a[1..], b[1..])
  }

  /** `lower(a) <= lower(b)`: the order of titles in ORDER BY lower(title) ASC. */
  predicate TitleLe(a: string, b: string)
  {
    StrLe(Lower(a), Lower(b))
  }

  lemma {:induction false} StrLeTotal(a: string, b: string)
    ensures StrLe(a, b) || StrLe(b, a)
  {
    if a != [] && b != [] && a[0] == b[0] {
      StrLeTotal(a[1..], b[1..]);
    }
  }

  lemma {:induction false} StrLeTransitive(a: string, b: string, c: string)
    requires StrLe(a, b) && StrLe(b, c)
    ensures StrLe(a, c)
  {
    if a != [] && b != [] && c != [] && a[0] == b[0] && b[0] == c[0] {
      StrLeTransitive(a[1..], b[1..], c[1..]);
    }
  }

  /** Any two titles are comparable under lower(title). */
  lemma TitleLeTotal(a: string, b: string)
    ensures TitleLe(a, b) || TitleLe(b, a)
  {
    StrLeTotal(Lower(a), Lower(b));
  }

  lemma TitleLeTransitive(a: string, b: string, c: string)
    requires TitleLe(a, b) && TitleLe(b, c)
    ensures TitleLe(a, c)
  {
    StrLeTransitive(Lower(a), Lower(b), Lower(c));
  }

  /** Titles that differ only in ASCII letter case sort as equals. */
  lemma {:induction false} TitleLeIgnoresCase(a: string, b: string)
    requires Lower(a) == Lower(b)
    ensures TitleLe(a, b) && TitleLe(b, a)
  {
    StrLeReflexive(Lower(a));
  }

  lemma {:induction false} StrLeReflexive(a: string)
    ensures StrLe(a, a)
  {
    if a != [] {
      StrLeReflexive(a[1..]);
    }
  }
}
