/** What the two queries return on concrete catalogues, proved as lemmas. */
module Scenarios {
  import opened Wrappers
  import opened Entities
  import opened Seqs
  import opened Lookup
  import opened BLBook

  /** A book whose title and author do not matter to the queries. */
  function MakeBook(id: int, genre: Option<string>, year: int): Book {
    Book(id, "Title", "Author", genre, year)
  }

  /** Filtering a three-book list, one book at a time. */
  lemma FilterThree(b1: Book, b2: Book, b3: Book, p: Book -> bool)
    ensures Filter([b1, b2, b3], p) ==
      (if p(b1) then [b1] else []) + (if p(b2) then [b2] else []) + (if p(b3) then [b3] else [])
  {
    FilterSnoc([], b1, p);
    FilterSnoc([b1], b2, p);
    FilterSnoc([b1, b2], b3, p);
    assert [] + [b1] == [b1] && [b1] + [b2] == [b1, b2] && [b1, b2] + [b3] == [b1, b2, b3];
  }

  /** Of three books, the first published no later than `year` and the other two after it,
      the query returns the last two in order. */
  lemma AfterYearDropsFirst(b1: Book, b2: Book, b3: Book, year: int)
    requires b1.Year <= year < b2.Year && year < b3.Year
    ensures FindBooksPublishedAfterYear([b1, b2, b3], year) == [b2, b3]
  {
    FilterThree(b1, b2, b3, PublishedAfter(year));
  }

  /** Books from 1999, 2001 and 2020, asked for those after 2000: the last two, in order. */
  lemma AfterYearExample()
    ensures var b1, b2, b3 := MakeBook(1, Some("SciFi"), 1999), MakeBook(2, Some("SciFi"), 2001), MakeBook(3, Some("Drama"), 2020);
      FindBooksPublishedAfterYear([b1, b2, b3], 2000) == [b2, b3]
  {
    var b1, b2, b3 := MakeBook(1, Some("SciFi"), 1999), MakeBook(2, Some("SciFi"), 2001), MakeBook(3, Some("Drama"), 2020);
    AfterYearDropsFirst(b1, b2, b3, 2000);
  }

  /** The comparison is strict: a book published in the given year itself is left out. */
  lemma AfterYearIsStrict(b: Book)
    ensures FindBooksPublishedAfterYear([b], b.Year) == []
  {
  }

  /** The genre names of two books of `g1` and one of `g2`. */
  lemma GenreNamesTwoGenres(b1: Book, b2: Book, b3: Book, g1: string, g2: string)
    requires b1.Genre == Some(g1) && b2.Genre == Some(g1) && b3.Genre == Some(g2)
    ensures GenreNames([b1, b2, b3]) == {g1, g2}
  {
    assert b1 in [b1, b2, b3] && b3 in [b1, b2, b3];
  }

  /** The per-genre filters of two books of `g1` and one of `g2`. */
  lemma FiltersTwoGenres(b1: Book, b2: Book, b3: Book, g1: string, g2: string)
    requires g1 != g2
    requires b1.Genre == Some(g1) && b2.Genre == Some(g1) && b3.Genre == Some(g2)
    ensures Filter([b1, b2, b3], HasGenre(Some(g1))) == [b1, b2]
    ensures Filter([b1, b2, b3], HasGenre(Some(g2))) == [b3]
  {
    FilterThree(b1, b2, b3, HasGenre(Some(g1)));
    FilterThree(b1, b2, b3, HasGenre(Some(g2)));
  }

  /** The grouping of two books of `g1` and one of `g2`, for a list named `books`. */
  lemma GroupTwoGenresOf(books: seq<Book>, b1: Book, b2: Book, b3: Book, g1: string, g2: string)
    requires books == [b1, b2, b3]
    requires g1 != g2
    requires b1.Genre == Some(g1) && b2.Genre == Some(g1) && b3.Genre == Some(g2)
    ensures GroupBooksByGenre(books) == Success(map[g1 := [b1, b2], g2 := [b3]])
  {
    assert forall b :: b in books ==> b.Genre.Some?;
    GroupKeysAreGenres(books);
    GenreNamesTwoGenres(b1, b2, b3, g1, g2);
    FiltersTwoGenres(b1, b2, b3, g1, g2);
    var m := GroupBooksByGenre(books).value;
    TwoEntryMap(m, g1, [b1, b2], g2, [b3]);
  }

  /** A map with exactly two keys and known values is the two-entry map display. */
  lemma TwoEntryMap<V>(m: map<string, V>, k1: string, v1: V, k2: string, v2: V)
    requires m.Keys == {k1, k2} && m[k1] == v1 && m[k2] == v2
    ensures m == map[k1 := v1, k2 := v2]
  {
  }

  /** Two books of genre `g1` and one of genre `g2`: a group of two and a group of one,
      each in input order. */
  lemma GroupTwoGenres(b1: Book, b2: Book, b3: Book, g1: string, g2: string)
    requires g1 != g2
    requires b1.Genre == Some(g1) && b2.Genre == Some(g1) && b3.Genre == Some(g2)
    ensures GroupBooksByGenre([b1, b2, b3]) == Success(map[g1 := [b1, b2], g2 := [b3]])
  {
    GroupTwoGenresOf([b1, b2, b3], b1, b2, b3, g1, g2);
  }

  /** Two science-fiction books and one drama: a group of two and a group of one. */
  lemma GroupByGenreExample()
    ensures var b1, b2, b3 := MakeBook(1, Some("SciFi"), 1999), MakeBook(2, Some("SciFi"), 2001), MakeBook(3, Some("Drama"), 2020);
      GroupBooksByGenre([b1, b2, b3]) == Success(map["SciFi" := [b1, b2], "Drama" := [b3]])
  {
    var b1, b2, b3 := MakeBook(1, Some("SciFi"), 1999), MakeBook(2, Some("SciFi"), 2001), MakeBook(3, Some("Drama"), 2020);
    assert "SciFi"[0] != "Drama"[0];
    GroupTwoGenres(b1, b2, b3, "SciFi", "Drama");
  }

  /** Genre keys are compared exactly: "Drama" and "drama" are two groups. */
  lemma GenreIsCaseSensitive()
    ensures var b1, b2, b3 := MakeBook(1, Some("Drama"), 2000), MakeBook(2, Some("Drama"), 2010), MakeBook(3, Some("drama"), 2020);
      GroupBooksByGenre([b1, b2, b3]) == Success(map["Drama" := [b1, b2], "drama" := [b3]])
  {
    var b1, b2, b3 := MakeBook(1, Some("Drama"), 2000), MakeBook(2, Some("Drama"), 2010), MakeBook(3, Some("drama"), 2020);
    assert "Drama"[0] != "drama"[0];
    GroupTwoGenres(b1, b2, b3, "Drama", "drama");
  }

  /** One book with a null genre makes the whole grouping fail. */
  lemma NullGenreFails(books: seq<Book>, b: Book)
    requires b.Genre.None?
    ensures GroupBooksByGenre(books + [b]) == Failure(NullKey)
  {
    assert b in books + [b];
  }
}
