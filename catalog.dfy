/**
 * The book listing's `available` query parameter: `true` keeps the books
 * with a copy on the shelf, `false` the ones without, in any letter case;
 * any other value, or none, keeps the whole catalog.
 */
module Catalog {
  import opened Wrappers
  import opened Models

  /** Lower-case one ASCII letter; every other character is kept. */
  function LowerChar(c: char): (r: char)
    ensures 'A' <= c <= 'Z' ==> 'a' <= r <= 'z' && r as int - c as int == 'a' as int - 'A' as int
    ensures !('A' <= c <= 'Z') ==> r == c
  {
    if 'A' <= c <= 'Z' then (c as int - 'A' as int + 'a' as int) as char else c
  }

  /** `str.lower()` on the ASCII letters. */
  function Lower(s: string): (r: string)
    ensures |r| == |s|
    ensures forall i | 0 <= i < |s| :: r[i] == LowerChar(s[i])
  {
    seq(|s|, i requires 0 <= i < |s| => LowerChar(s[i]))
  }

  /** The ids `get_queryset` keeps for the given `available` parameter. */
  function AvailableFilter(books: map<BookId, Book>, available: Option<string>): (r: set<BookId>)
    ensures r <= books.Keys
    ensures available.Some? && Lower(available.value) == "true" ==>
      forall b | b in books :: b in r <==> books[b].copies > 0
    ensures available.Some? && Lower(available.value) == "false" ==>
      forall b | b in books :: b in r <==> books[b].copies <= 0
    ensures available.None? || (Lower(available.value) != "true" && Lower(available.value) != "false") ==>
      r == books.Keys
  {
    if available.Some? && Lower(available.value) == "true" then set b | b in books && books[b].copies > 0
    else if available.Some? && Lower(available.value) == "false" then set b | b in books && books[b].copies <= 0
    else books.Keys
  }

  /** The `true` and `false` listings split the catalog between them. */
  lemma FiltersSplitCatalog(books: map<BookId, Book>, yes: string, no: string)
    requires Lower(yes) == "true" && Lower(no) == "false"
    ensures AvailableFilter(books, Some(yes)) + AvailableFilter(books, Some(no)) == books.Keys
    ensures AvailableFilter(books, Some(yes)) * AvailableFilter(books, Some(no)) == {}
  {
  }

  /** Letter case does not matter: `TRUE` and `True` ask for the same listing as `true`. */
  lemma FilterIgnoresCase(books: map<BookId, Book>)
    ensures AvailableFilter(books, Some("TRUE")) == AvailableFilter(books, Some("True"))
                                                  == AvailableFilter(books, Some("true"))
    ensures AvailableFilter(books, Some("False")) == AvailableFilter(books, Some("false"))
  {
    assert Lower("TRUE") == "true";
    assert Lower("True") == "true";
    assert Lower("true") == "true";
    assert Lower("False") == "false";
    assert Lower("false") == "false";
  }
}
