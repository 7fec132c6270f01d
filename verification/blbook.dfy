/** The two in-memory queries of the business-logic service. Each takes `books`, the list
    the repository's `GetAll()` returned for that call, and writes nothing back. */
module BLBook {
  import opened Wrappers
  import opened Entities
  import opened Seqs
  import opened Lookup

  /** The `Where` predicate of the year query: published strictly after `year`. */
  function PublishedAfter(year: int): Book -> bool {
    (b: Book) => b.Year > year
  }

  /** `FindBooksPublishedAfterYear(year)`: the books with `Year > year`, in retrieval order. */
  function FindBooksPublishedAfterYear(books: seq<Book>, year: int): (r: seq<Book>)
    ensures |r| <= |books|
    ensures forall b :: b in r ==> b in books && b.Year > year
    ensures forall b :: b in books && b.Year > year ==> b in r
    ensures forall b :: multiset(r)[b] == if b.Year > year then multiset(books)[b] else 0
    ensures IsSubsequence(r, books)
  {
    FilterMultiset(books, PublishedAfter(year));
    FilterIsSubsequence(books, PublishedAfter(year));
    Filter(books, PublishedAfter(year))
  }

  /** The year query keeps exactly the positions of `books` holding a book newer than
      `year`, in increasing order. */
  lemma FindBooksPublishedAfterYearPositions(books: seq<Book>, year: int)
    ensures exists idx ::
      && Embeds(FindBooksPublishedAfterYear(books, year), books, idx)
      && (forall i :: 0 <= i < |books| ==> (i in idx <==> books[i].Year > year))
  {
    var idx := Positions(books, PublishedAfter(year));
    FilterAtPositions(books, PublishedAfter(year));
    assert forall i :: 0 <= i < |books| ==> (i in idx <==> books[i].Year > year) by {
      forall i | 0 <= i < |books| && i in idx ensures books[i].Year > year {
        var k :| 0 <= k < |idx| && idx[k] == i;
      }
    }
    assert Embeds(FindBooksPublishedAfterYear(books, year), books, idx);
  }

  /** Asking for books after `y1` and then after `y2` is asking for books after the later year. */
  lemma FindBooksPublishedAfterYearComposes(books: seq<Book>, y1: int, y2: int)
    ensures FindBooksPublishedAfterYear(FindBooksPublishedAfterYear(books, y1), y2) ==
      FindBooksPublishedAfterYear(books, if y1 < y2 then y2 else y1)
  {
    FilterFuse(books, PublishedAfter(y1), PublishedAfter(y2), PublishedAfter(if y1 < y2 then y2 else y1));
  }

  /** A later year yields an order-preserving subsequence of an earlier year's answer. */
  lemma FindBooksPublishedAfterYearAntitone(books: seq<Book>, y1: int, y2: int)
    requires y1 <= y2
    ensures IsSubsequence(FindBooksPublishedAfterYear(books, y2), FindBooksPublishedAfterYear(books, y1))
  {
    FindBooksPublishedAfterYearComposes(books, y1, y2);
  }

  /** `GroupBooksByGenre()`: the books grouped by exact genre, or the `ToDictionary`
      failure when some book's genre is null. */
  function GroupBooksByGenre(books: seq<Book>): (r: Result<map<string, seq<Book>>, DictionaryError>)
    ensures r.Failure? <==> exists b :: b in books && b.Genre.None?
    ensures r.Failure? ==> r.error == NullKey
    ensures r.Success? ==> forall g :: g in r.value <==> exists b :: b in books && b.Genre == Some(g)
    ensures r.Success? ==> forall g :: g in r.value ==> r.value[g] == Filter(books, HasGenre(Some(g)))
    ensures |books| == 0 ==> r == Success(map[])
  {
    GroupByToDictionary(books);
    ToDictionary(GroupBy(books))
  }

  /** The distinct non-null genres of `books`: the genre names in `Genres(books)`. */
  function GenreNames(books: seq<Book>): set<string> {
    set g | g in Genres(books) && g.Some? :: g.value
  }

  /** The dictionary's keys are exactly the distinct genres of the input; an empty catalogue
      gives an empty dictionary. */
  lemma GroupKeysAreGenres(books: seq<Book>)
    requires forall b :: b in books ==> b.Genre.Some?
    ensures GroupBooksByGenre(books).Success?
    ensures GroupBooksByGenre(books).value.Keys == GenreNames(books)
    ensures |GroupBooksByGenre(books).value| == |GenreNames(books)|
  {
  }

  /** Every book stored under genre `g` has exactly genre `g`, and no group is empty. */
  lemma GroupMembersHaveGenre(books: seq<Book>)
    requires forall b :: b in books ==> b.Genre.Some?
    ensures GroupBooksByGenre(books).Success?
    ensures var m := GroupBooksByGenre(books).value;
      forall g :: g in m ==> |m[g]| > 0 && forall b :: b in m[g] ==> b.Genre == Some(g)
  {
    var m := GroupBooksByGenre(books).value;
    forall g | g in m ensures |m[g]| > 0 {
      var b :| b in books && b.Genre == Some(g);
      assert b in m[g];
    }
  }

  /** Each book of the input lies in the group of its own genre and in no other. */
  lemma EachBookInExactlyOneGroup(books: seq<Book>)
    requires forall b :: b in books ==> b.Genre.Some?
    ensures GroupBooksByGenre(books).Success?
    ensures var m := GroupBooksByGenre(books).value;
      && (forall b :: b in books ==> b.Genre.Some? && b.Genre.value in m && b in m[b.Genre.value])
      && (forall b, g :: b in books && g in m ==> (b in m[g] <==> b.Genre == Some(g)))
  {
  }

  /** Within each group the books keep their relative order from the input list. */
  lemma GroupsKeepInputOrder(books: seq<Book>)
    requires forall b :: b in books ==> b.Genre.Some?
    ensures GroupBooksByGenre(books).Success?
    ensures var m := GroupBooksByGenre(books).value;
      forall g :: g in m ==> IsSubsequence(m[g], books)
  {
    forall g | g in GroupBooksByGenre(books).value
      ensures IsSubsequence(GroupBooksByGenre(books).value[g], books)
    {
      FilterIsSubsequence(books, HasGenre(Some(g)));
    }
  }

  /** The groups of the keys `ks`, concatenated in that order. */
  function Concat(m: map<string, seq<Book>>, ks: seq<string>): seq<Book>
    requires forall k :: k in ks ==> k in m
  {
    if |ks| == 0 then [] else m[ks[0]] + Concat(m, ks[1..])
  }

  /** Books whose (non-null) genre is one of `genres`. */
  function GenreIn(genres: set<string>): Book -> bool {
    (b: Book) => b.Genre.Some? && b.Genre.value in genres
  }

  /** The books of genre `g` together with those of the other genres `others`. */
  lemma FilterGenreUnion(books: seq<Book>, g: string, others: set<string>)
    requires g !in others
    ensures multiset(Filter(books, HasGenre(Some(g)))) + multiset(Filter(books, GenreIn(others))) ==
      multiset(Filter(books, GenreIn(others + {g})))
  {
    FilterMultiset(books, HasGenre(Some(g)));
    FilterMultiset(books, GenreIn(others));
    FilterMultiset(books, GenreIn(others + {g}));
  }

  /** Concatenating the groups of distinct keys collects the books of those genres. */
  lemma {:induction false} ConcatIsFilter(books: seq<Book>, m: map<string, seq<Book>>, ks: seq<string>)
    requires forall g :: g in m ==> m[g] == Filter(books, HasGenre(Some(g)))
    requires forall k :: k in ks ==> k in m
    requires forall i, j :: 0 <= i < j < |ks| ==> ks[i] != ks[j]
    ensures multiset(Concat(m, ks)) == multiset(Filter(books, GenreIn(set k | k in ks)))
    decreases |ks|
  {
    var K := set k | k in ks;
    if |ks| == 0 {
      FilterNone(books, GenreIn(K));
    } else {
      var k0, rest := ks[0], ks[1..];
      var R := set k | k in rest;
      ConcatIsFilter(books, m, rest);
      assert k0 !in R;
      assert K == R + {k0} by {
        assert ks == [k0] + rest;
      }
      calc {
        multiset(Concat(m, ks));
        multiset(m[k0] + Concat(m, rest));
        multiset(m[k0]) + multiset(Concat(m, rest));
        multiset(Filter(books, HasGenre(Some(k0)))) + multiset(Filter(books, GenreIn(R)));
        { FilterGenreUnion(books, k0, R); }
        multiset(Filter(books, GenreIn(R + {k0})));
      }
    }
  }

  /** Listing the groups in any order of their keys, each key once, gives back the input
      books up to order: the group sizes sum to the number of books. */
  lemma GroupsPermuteBooks(books: seq<Book>, ks: seq<string>)
    requires forall b :: b in books ==> b.Genre.Some?
    requires forall k :: k in ks <==> k in GenreNames(books)
    requires forall i, j :: 0 <= i < j < |ks| ==> ks[i] != ks[j]
    ensures GroupBooksByGenre(books).Success?
    ensures multiset(Concat(GroupBooksByGenre(books).value, ks)) == multiset(books)
    ensures |Concat(GroupBooksByGenre(books).value, ks)| == |books|
  {
    GroupKeysAreGenres(books);
    var m := GroupBooksByGenre(books).value;
    ConcatIsFilter(books, m, ks);
    var K := set k | k in ks;
    assert forall b :: b in books ==> GenreIn(K)(b) by {
      forall b | b in books ensures GenreIn(K)(b) {
        assert b.Genre.value in m;
      }
    }
    FilterAll(books, GenreIn(K));
    assert |multiset(Concat(m, ks))| == |Concat(m, ks)|;
  }

  /** Grouping the books newer than `year` gives, per genre, the newer books of that genre;
      a genre keeps a group exactly when it has such a book. */
  lemma GroupingAfterYearFilter(books: seq<Book>, year: int)
    requires forall b :: b in books ==> b.Genre.Some?
    ensures GroupBooksByGenre(books).Success?
    ensures var m := GroupBooksByGenre(books).value;
      var r := GroupBooksByGenre(FindBooksPublishedAfterYear(books, year));
      && r.Success?
      && (forall g :: g in r.value ==> g in m && r.value[g] == FindBooksPublishedAfterYear(m[g], year))
      && (forall g :: g in m && |FindBooksPublishedAfterYear(m[g], year)| > 0 ==> g in r.value)
  {
    var m := GroupBooksByGenre(books).value;
    var newer := FindBooksPublishedAfterYear(books, year);
    var r := GroupBooksByGenre(newer);
    forall g | g in r.value
      ensures g in m && r.value[g] == FindBooksPublishedAfterYear(m[g], year)
    {
      FilterCommutes(books, PublishedAfter(year), HasGenre(Some(g)));
    }
    forall g | g in m && |FindBooksPublishedAfterYear(m[g], year)| > 0 ensures g in r.value {
      var x := FindBooksPublishedAfterYear(m[g], year)[0];
      assert x in FindBooksPublishedAfterYear(m[g], year);
      assert x in newer;
    }
  }
}
