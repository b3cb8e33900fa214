/** The parts of SQLite's semantics that the two stores' queries rely on: the LIKE operator, the
    BINARY collation that ORDER BY uses on text, and the place of NULL in an ORDER BY. */
module Sql {
  import opened Wrappers
  import opened Calendar
  import opened JavaText

  // ---------------------------------------------------------------------------------------------
  // x LIKE pattern (no ESCAPE clause)

  /** SQLite's LIKE: `%` matches any run of chars, `_` exactly one char, and any other pattern char
      matches itself, ASCII letters regardless of case. */
  function Like(pattern: string, text: string): bool
    decreases |pattern| + |text|
  {
    if pattern == [] then text == []
    else if pattern[0] == '%' then Like(pattern[1..], text) || (text != [] && Like(pattern, text[1..]))
    else text != [] && (pattern[0] == '_' || FoldCase(pattern[0]) == FoldCase(text[0]))
         && Like(pattern[1..], text[1..])
  }

  /** A search term holding no LIKE wildcard. */
  predicate NoWildcards(term: string) {
    '%' !in term && '_' !in term
  }

  /** `a` and `b` are equal up to the case of ASCII letters. */
  predicate EqualIgnoreCase(a: string, b: string) {
    |a| == |b| && forall i :: 0 <= i < |a| ==> FoldCase(a[i]) == FoldCase(b[i])
  }

  /** `term` occurs in `text` at position `k`, ignoring the case of ASCII letters. */
  predicate OccursAt(text: string, term: string, k: int) {
    0 <= k <= |text| - |term| && EqualIgnoreCase(text[k..k + |term|], term)
  }

  /** `term` occurs in `text` at some position, ignoring the case of ASCII letters. */
  ghost predicate ContainsIgnoreCase(text: string, term: string) {
    exists k :: OccursAt(text, term, k)
  }

  /** `%` alone matches every text. */
  lemma {:induction false} LikeAnyText(text: string)
    ensures Like("%", text)
  {
    if text != [] {
      LikeAnyText(text[1..]);
    }
  }

  /** `term%` matches exactly the texts that start with `term`, ignoring case. */
  lemma {:induction false} LikePrefix(term: string, text: string)
    requires NoWildcards(term)
    ensures Like(term + "%", text) <==> |term| <= |text| && EqualIgnoreCase(text[..|term|], term)
  {
    if term == [] {
      assert term + "%" == "%";
      LikeAnyText(text);
    } else {
      assert (term + "%")[1..] == term[1..] + "%";
      if text != [] {
        LikePrefix(term[1..], text[1..]);
        if |term| <= |text| && EqualIgnoreCase(text[..|term|], term) {
          assert EqualIgnoreCase(text[1..][..|term| - 1], term[1..]) by {
            forall i | 0 <= i < |term| - 1
              ensures FoldCase(text[1..][..|term| - 1][i]) == FoldCase(term[1..][i])
            {
              assert text[1..][..|term| - 1][i] == text[..|term|][i + 1];
            }
          }
        }
        if Like(term + "%", text) {
          assert EqualIgnoreCase(text[..|term|], term) by {
            forall i | 0 <= i < |term| ensures FoldCase(text[..|term|][i]) == FoldCase(term[i]) {
              if i > 0 {
                assert text[..|term|][i] == text[1..][..|term| - 1][i - 1];
              }
            }
          }
        }
      }
    }
  }

  /** `%term%`, the pattern a search builds, matches exactly the texts that contain `term`
      ignoring the case of ASCII letters, when the term holds no wildcard. */
  lemma {:induction false} LikeContains(term: string, text: string)
    requires NoWildcards(term)
    ensures Like("%" + term + "%", text) <==> ContainsIgnoreCase(text, term)
  {
    var p := "%" + term + "%";
    assert p[1..] == term + "%";
    LikePrefix(term, text);
    if text == [] {
      if ContainsIgnoreCase(text, term) {
        var k :| OccursAt(text, term, k);
        assert Like(term + "%", text) by { assert text[..|term|] == text[k..k + |term|]; }
      }
      if Like(p, text) {
        assert text[0..0 + |term|] == text[..|term|];
        assert OccursAt(text, term, 0);
      }
    } else {
      LikeContains(term, text[1..]);
      if Like(p, text) {
        if Like(term + "%", text) {
          assert text[0..0 + |term|] == text[..|term|];
          assert OccursAt(text, term, 0);
        } else {
          var k :| OccursAt(text[1..], term, k);
          assert text[1..][k..k + |term|] == text[k + 1..k + 1 + |term|];
          assert OccursAt(text, term, k + 1);
        }
      }
      if ContainsIgnoreCase(text, term) {
        var k :| OccursAt(text, term, k);
        if k == 0 {
          assert text[..|term|] == text[k..k + |term|];
        } else {
          assert text[1..][k - 1..k - 1 + |term|] == text[k..k + |term|];
          assert OccursAt(text[1..], term, k - 1);
        }
      }
    }
  }

  /** The wildcards in a term are not escaped: searching for `_` finds every non-empty text. */
  lemma {:induction false} UnderscoreMatchesAnyNonEmpty(text: string)
    ensures Like("%_%", text) <==> text != []
  {
    if text != [] {
      assert ("%_%")[1..] == "_%";
      assert ("_%")[1..] == "%";
      LikeAnyText(text[1..]);
    }
  }

  // ---------------------------------------------------------------------------------------------
  // ORDER BY on TEXT: the BINARY collation

  /** BINARY collation: compare code points from the left, a proper prefix first. On UTF-8 text
      this is the order of the encoded bytes, so upper-case letters sort before lower-case ones. */
  predicate BinaryLe(a: string, b: string)
  {
    if a == [] then true
    else if b == [] then false
    else if a[0] != b[0] then a[0] < b[0]
    else BinaryLe(a[1..], b[1..])
  }

  lemma {:induction false} BinaryLeTotal(a: string, b: string)
    ensures BinaryLe(a, b) || BinaryLe(b, a)
  {
    if a != [] && b != [] && a[0] == b[0] {
      BinaryLeTotal(a[1..], b[1..]);
    }
  }

  lemma {:induction false} BinaryLeTransitive(a: string, b: string, c: string)
    requires BinaryLe(a, b) && BinaryLe(b, c)
    ensures BinaryLe(a, c)
  {
    if a != [] && b != [] && c != [] && a[0] == b[0] && b[0] == c[0] {
      BinaryLeTransitive(a[1..], b[1..], c[1..]);
    }
  }

  // ---------------------------------------------------------------------------------------------
  // ORDER BY on a nullable DATE column

  /** Ascending order on a nullable date column: NULL sorts before every date. (The stores write
      dates as ISO `yyyy-mm-dd` text, whose text order is the date order for years 0000 to 9999
      only: a five-digit year is written `+yyyyy` and sorts before every four-digit one.) */
  predicate NullsFirstLe(a: Option<Date>, b: Option<Date>) {
    a.None? || (b.Some? && a.value <= b.value)
  }
}
