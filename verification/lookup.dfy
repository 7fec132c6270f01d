/** Grouping of books by genre: LINQ's `GroupBy(book => book.Genre)` followed by
    `ToDictionary(group => group.Key, group => group.ToList())`. */
module Lookup {
  import opened Wrappers
  import opened Entities
  import opened Seqs

  /** One group produced by `GroupBy`: a key (possibly null) and its books in input order. */
  datatype Grouping = Grouping(Key: Option<string>, Items: seq<Book>)

  /** Why `ToDictionary` throws: a null key, or a key already added. */
  datatype DictionaryError = NullKey | DuplicateKey

  /** The key selector as a predicate: the book's genre equals `g` (ordinal, case-sensitive). */
  function HasGenre(g: Option<string>): Book -> bool {
    (b: Book) => b.Genre == g
  }

  /** The index of the grouping with key `k`, or -1 when there is none. */
  function IndexOfKey(gs: seq<Grouping>, k: Option<string>): (i: int)
    ensures -1 <= i < |gs|
    ensures 0 <= i ==> gs[i].Key == k
    ensures i == -1 <==> forall j :: 0 <= j < |gs| ==> gs[j].Key != k
  {
    if |gs| == 0 then -1
    else if gs[0].Key == k then 0
    else
      var j := IndexOfKey(gs[1..], k);
      if j == -1 then -1 else j + 1
  }

  /** Feeds one more book to the lookup: appended to the group of its genre, or to a new
      group at the end when its genre has not been seen yet. */
  function AddToGroups(gs: seq<Grouping>, b: Book): (r: seq<Grouping>)
    ensures (forall j :: 0 <= j < |gs| ==> gs[j].Key != b.Genre) ==>
      r == gs + [Grouping(b.Genre, [b])]
    ensures (exists j :: 0 <= j < |gs| && gs[j].Key == b.Genre) ==>
      |r| == |gs| &&
      exists i :: 0 <= i < |gs| && gs[i].Key == b.Genre && r[i].Items == gs[i].Items + [b] &&
        forall j :: 0 <= j < |gs| && j != i ==> r[j] == gs[j]
    ensures Keys(r) == Keys(gs) + {b.Genre}
  {
    var i := IndexOfKey(gs, b.Genre);
    if i == -1 then gs + [Grouping(b.Genre, [b])]
    else gs[i := gs[i].(Items := gs[i].Items + [b])]
  }

  /** No two groupings share a key. */
  ghost predicate DistinctKeys(gs: seq<Grouping>) {
    forall i, j :: 0 <= i < j < |gs| ==> gs[i].Key != gs[j].Key
  }

  /** Every grouping holds exactly the books of its key, in input order. */
  ghost predicate GroupsAreFilters(books: seq<Book>, gs: seq<Grouping>) {
    forall i :: 0 <= i < |gs| ==> gs[i].Items == Filter(books, HasGenre(gs[i].Key))
  }

  /** The genres occurring in `books`, null included. */
  function Genres(books: seq<Book>): set<Option<string>> {
    set b | b in books :: b.Genre
  }

  /** The keys of the groupings. */
  function Keys(gs: seq<Grouping>): set<Option<string>> {
    set g | g in gs :: g.Key
  }

  /** The keys are exactly the genres occurring in `books`. */
  ghost predicate KeysAreGenres(books: seq<Book>, gs: seq<Grouping>) {
    Keys(gs) == Genres(books)
  }

  /** Genre `k1` occurs in `books` before the first occurrence of genre `k2`. */
  ghost predicate OccursBefore(books: seq<Book>, k1: Option<string>, k2: Option<string>) {
    exists p :: 0 <= p < |books| && books[p].Genre == k1 &&
      forall q :: 0 <= q <= p ==> books[q].Genre != k2
  }

  /** Groupings come in the order in which their keys first occur in `books`. */
  ghost predicate FirstAppearanceOrder(books: seq<Book>, gs: seq<Grouping>) {
    forall i, j :: 0 <= i < j < |gs| ==> OccursBefore(books, gs[i].Key, gs[j].Key)
  }

  /** What `GroupBy` promises of its result for the input `books`. */
  ghost predicate IsGrouping(books: seq<Book>, gs: seq<Grouping>) {
    && DistinctKeys(gs)
    && GroupsAreFilters(books, gs)
    && KeysAreGenres(books, gs)
    && FirstAppearanceOrder(books, gs)
  }

  /** Appending a book keeps an earlier first-occurrence order. */
  lemma OccursBeforeSnoc(books: seq<Book>, b: Book, k1: Option<string>, k2: Option<string>)
    requires OccursBefore(books, k1, k2)
    ensures OccursBefore(books + [b], k1, k2)
  {
    var p :| 0 <= p < |books| && books[p].Genre == k1 &&
      forall q :: 0 <= q <= p ==> books[q].Genre != k2;
    var s := books + [b];
    assert s[p].Genre == k1;
    assert forall q :: 0 <= q <= p ==> s[q].Genre != k2 by {
      forall q | 0 <= q <= p ensures s[q].Genre != k2 {
        assert s[q] == books[q];
      }
    }
  }

  /** A new grouping for an unseen genre holds exactly that genre's books. */
  lemma NewKeyFilters(books: seq<Book>, gs: seq<Grouping>, b: Book)
    requires GroupsAreFilters(books, gs)
    requires forall j :: 0 <= j < |gs| ==> gs[j].Key != b.Genre
    requires forall x :: x in books ==> x.Genre != b.Genre
    ensures GroupsAreFilters(books + [b], gs + [Grouping(b.Genre, [b])])
  {
    var s, gs' := books + [b], gs + [Grouping(b.Genre, [b])];
    forall k | 0 <= k < |gs'| ensures gs'[k].Items == Filter(s, HasGenre(gs'[k].Key)) {
      FilterSnoc(books, b, HasGenre(gs'[k].Key));
      if k == |gs| {
        FilterNone(books, HasGenre(b.Genre));
      } else {
        assert gs'[k] == gs[k];
      }
    }
  }

  /** A new grouping adds the new book's genre to the keys. */
  lemma NewKeyGenres(books: seq<Book>, gs: seq<Grouping>, b: Book)
    requires KeysAreGenres(books, gs)
    ensures KeysAreGenres(books + [b], gs + [Grouping(b.Genre, [b])])
  {
    assert Genres(books + [b]) == Genres(books) + {b.Genre};
    assert Keys(gs + [Grouping(b.Genre, [b])]) == Keys(gs) + {b.Genre};
  }

  /** A new grouping goes last: its genre occurs after every earlier key's first occurrence. */
  lemma NewKeyOrder(books: seq<Book>, gs: seq<Grouping>, b: Book)
    requires FirstAppearanceOrder(books, gs)
    requires KeysAreGenres(books, gs)
    requires forall x :: x in books ==> x.Genre != b.Genre
    ensures FirstAppearanceOrder(books + [b], gs + [Grouping(b.Genre, [b])])
  {
    var s, gs' := books + [b], gs + [Grouping(b.Genre, [b])];
    forall i, j | 0 <= i < j < |gs'| ensures OccursBefore(s, gs'[i].Key, gs'[j].Key) {
      assert gs'[i] == gs[i];
      if j < |gs| {
        assert gs'[j] == gs[j];
        OccursBeforeSnoc(books, b, gs[i].Key, gs[j].Key);
      } else {
        assert gs[i].Key in Keys(gs);
        var x :| x in books && x.Genre == gs[i].Key;
        var p :| 0 <= p < |books| && books[p] == x;
        assert s[p] == x;
        forall q | 0 <= q <= p ensures s[q].Genre != b.Genre {
          assert s[q] == books[q];
          assert s[q] in books;
        }
      }
    }
  }

  /** A book whose genre has no grouping yet opens a new grouping at the end. */
  lemma AddNewKeyIsGrouping(books: seq<Book>, gs: seq<Grouping>, b: Book)
    requires IsGrouping(books, gs)
    requires forall j :: 0 <= j < |gs| ==> gs[j].Key != b.Genre
    ensures IsGrouping(books + [b], gs + [Grouping(b.Genre, [b])])
  {
    assert forall x :: x in books ==> x.Genre != b.Genre by {
      forall x | x in books ensures x.Genre != b.Genre {
        assert x.Genre in Genres(books);
      }
    }
    NewKeyFilters(books, gs, b);
    NewKeyGenres(books, gs, b);
    NewKeyOrder(books, gs, b);
  }

  /** Appending to the grouping of the book's own genre keeps every grouping a filter. */
  lemma ExistingKeyFilters(books: seq<Book>, gs: seq<Grouping>, b: Book, i: int)
    requires GroupsAreFilters(books, gs)
    requires 0 <= i < |gs| && gs[i].Key == b.Genre
    requires DistinctKeys(gs)
    ensures GroupsAreFilters(books + [b], gs[i := gs[i].(Items := gs[i].Items + [b])])
  {
    var s, gs' := books + [b], gs[i := gs[i].(Items := gs[i].Items + [b])];
    forall k | 0 <= k < |gs'| ensures gs'[k].Items == Filter(s, HasGenre(gs'[k].Key)) {
      FilterSnoc(books, b, HasGenre(gs[k].Key));
    }
  }

  /** Appending to an existing grouping leaves the key set unchanged. */
  lemma ExistingKeyGenres(books: seq<Book>, gs: seq<Grouping>, b: Book, i: int)
    requires KeysAreGenres(books, gs)
    requires 0 <= i < |gs| && gs[i].Key == b.Genre
    ensures KeysAreGenres(books + [b], gs[i := gs[i].(Items := gs[i].Items + [b])])
  {
    var gs' := gs[i := gs[i].(Items := gs[i].Items + [b])];
    assert Genres(books + [b]) == Genres(books) + {b.Genre};
    assert Keys(gs') == Keys(gs) by {
      forall k | k in Keys(gs) ensures k in Keys(gs') {
        var g :| g in gs && g.Key == k;
        var j :| 0 <= j < |gs| && gs[j] == g;
        assert gs'[j].Key == k;
      }
      forall k | k in Keys(gs') ensures k in Keys(gs) {
        var g :| g in gs' && g.Key == k;
        var j :| 0 <= j < |gs'| && gs'[j] == g;
        assert gs[j].Key == k;
      }
    }
  }

  /** Appending to an existing grouping leaves the grouping order unchanged. */
  lemma ExistingKeyOrder(books: seq<Book>, gs: seq<Grouping>, b: Book, i: int)
    requires FirstAppearanceOrder(books, gs)
    requires 0 <= i < |gs|
    ensures FirstAppearanceOrder(books + [b], gs[i := gs[i].(Items := gs[i].Items + [b])])
  {
    var s, gs' := books + [b], gs[i := gs[i].(Items := gs[i].Items + [b])];
    forall k, l | 0 <= k < l < |gs'| ensures OccursBefore(s, gs'[k].Key, gs'[l].Key) {
      OccursBeforeSnoc(books, b, gs[k].Key, gs[l].Key);
    }
  }

  /** A book whose genre already has grouping `i` is appended to that grouping. */
  lemma AddExistingKeyIsGrouping(books: seq<Book>, gs: seq<Grouping>, b: Book, i: int)
    requires IsGrouping(books, gs)
    requires 0 <= i < |gs| && gs[i].Key == b.Genre
    ensures IsGrouping(books + [b], gs[i := gs[i].(Items := gs[i].Items + [b])])
  {
    ExistingKeyFilters(books, gs, b, i);
    ExistingKeyGenres(books, gs, b, i);
    ExistingKeyOrder(books, gs, b, i);
  }

  /** Adding one book to a grouping of `books` yields a grouping of `books + [b]`. */
  lemma AddToGroupsIsGrouping(books: seq<Book>, gs: seq<Grouping>, b: Book)
    requires IsGrouping(books, gs)
    ensures IsGrouping(books + [b], AddToGroups(gs, b))
  {
    var i := IndexOfKey(gs, b.Genre);
    if i == -1 {
      AddNewKeyIsGrouping(books, gs, b);
    } else {
      AddExistingKeyIsGrouping(books, gs, b, i);
    }
  }

  /** `GroupBy(book => book.Genre)`: the books fed one by one, in input order, to a lookup. */
  function GroupBy(books: seq<Book>): (gs: seq<Grouping>)
    ensures IsGrouping(books, gs)
    decreases |books|
  {
    if |books| == 0 then []
    else
      var init, last := books[..|books| - 1], books[|books| - 1];
      assert books == init + [last];
      var gs0 := GroupBy(init);
      AddToGroupsIsGrouping(init, gs0, last);
      AddToGroups(gs0, last)
  }

  /** `m` is the dictionary built from `gs`: non-null distinct keys, each mapped to its items. */
  ghost predicate IsDictionaryOf(gs: seq<Grouping>, m: map<string, seq<Book>>) {
    && (forall i :: 0 <= i < |gs| ==> gs[i].Key.Some?)
    && DistinctKeys(gs)
    && (forall k :: k in m <==> exists i :: 0 <= i < |gs| && gs[i].Key == Some(k))
    && (forall i :: 0 <= i < |gs| ==> m[gs[i].Key.value] == gs[i].Items)
  }

  /** Adding a grouping with a fresh non-null key extends the dictionary. */
  lemma AddToDictionaryStep(gs: seq<Grouping>, g: Grouping, m: map<string, seq<Book>>)
    requires IsDictionaryOf(gs, m)
    requires g.Key.Some? && g.Key.value !in m
    ensures IsDictionaryOf(gs + [g], m[g.Key.value := g.Items])
  {
    var gs', m' := gs + [g], m[g.Key.value := g.Items];
    forall i, j | 0 <= i < j < |gs'| ensures gs'[i].Key != gs'[j].Key {
      if j == |gs| {
        assert gs[i].Key.value in m;
      } else {
        assert gs'[i] == gs[i] && gs'[j] == gs[j];
      }
    }
    forall k ensures k in m' <==> exists i :: 0 <= i < |gs'| && gs'[i].Key == Some(k) {
      if k == g.Key.value {
        assert gs'[|gs|].Key == Some(k);
      } else if k in m {
        var i :| 0 <= i < |gs| && gs[i].Key == Some(k);
        assert gs'[i] == gs[i];
      }
      if exists i :: 0 <= i < |gs'| && gs'[i].Key == Some(k) {
        var i :| 0 <= i < |gs'| && gs'[i].Key == Some(k);
        if i < |gs| {
          assert gs'[i] == gs[i];
        }
      }
    }
    forall i | 0 <= i < |gs'| ensures m'[gs'[i].Key.value] == gs'[i].Items {
      if i < |gs| {
        assert gs'[i] == gs[i];
        assert gs[i].Key.value in m;
      }
    }
  }

  /** A key already in the dictionary means two groupings share it. */
  lemma RepeatedKeyStep(gs: seq<Grouping>, g: Grouping, m: map<string, seq<Book>>)
    requires IsDictionaryOf(gs, m)
    requires g.Key.Some? && g.Key.value in m
    ensures !DistinctKeys(gs + [g])
  {
    var i :| 0 <= i < |gs| && gs[i].Key == g.Key;
    assert (gs + [g])[i].Key == (gs + [g])[|gs|].Key;
  }

  /** A null or repeated key among the first groupings stays one after appending. */
  lemma FailureStep(gs: seq<Grouping>, g: Grouping)
    ensures !DistinctKeys(gs) ==> !DistinctKeys(gs + [g])
    ensures (exists i :: 0 <= i < |gs| && gs[i].Key.None?) ==> exists i :: 0 <= i < |gs + [g]| && (gs + [g])[i].Key.None?
  {
    if !DistinctKeys(gs) {
      var i, j :| 0 <= i < j < |gs| && gs[i].Key == gs[j].Key;
      assert (gs + [g])[i] == gs[i] && (gs + [g])[j] == gs[j];
    }
    if exists i :: 0 <= i < |gs| && gs[i].Key.None? {
      var i :| 0 <= i < |gs| && gs[i].Key.None?;
      assert (gs + [g])[i] == gs[i];
    }
  }

  /** `ToDictionary`: adds the groupings one by one in order; the first null key or
      repeated key makes the whole call fail. */
  function ToDictionary(gs: seq<Grouping>): (r: Result<map<string, seq<Book>>, DictionaryError>)
    ensures r.Success? <==> (forall i :: 0 <= i < |gs| ==> gs[i].Key.Some?) && DistinctKeys(gs)
    ensures r.Success? ==> IsDictionaryOf(gs, r.value)
    ensures r == Failure(NullKey) ==> exists i :: 0 <= i < |gs| && gs[i].Key.None?
    ensures r == Failure(DuplicateKey) ==> !DistinctKeys(gs)
    decreases |gs|
  {
    if |gs| == 0 then Success(map[])
    else
      var init, last := gs[..|gs| - 1], gs[|gs| - 1];
      assert gs == init + [last];
      FailureStep(init, last);
      match ToDictionary(init)
      case Failure(e) => Failure(e)
      case Success(m) =>
        if last.Key.None? then Failure(NullKey)
        else if last.Key.value in m then
          RepeatedKeyStep(init, last, m);
          Failure(DuplicateKey)
        else
          AddToDictionaryStep(init, last, m);
          Success(m[last.Key.value := last.Items])
  }

  /** Every key of a grouping of `books` is non-null exactly when no book has a null genre. */
  lemma GroupingKeysNonNull(books: seq<Book>, gs: seq<Grouping>)
    requires KeysAreGenres(books, gs)
    ensures (forall i :: 0 <= i < |gs| ==> gs[i].Key.Some?) <==> !exists b :: b in books && b.Genre.None?
  {
    if exists b :: b in books && b.Genre.None? {
      var b :| b in books && b.Genre.None?;
      assert b.Genre in Genres(books);
      var g :| g in gs && g.Key == b.Genre;
      var i :| 0 <= i < |gs| && gs[i] == g;
    } else {
      forall i | 0 <= i < |gs| ensures gs[i].Key.Some? {
        assert gs[i] in gs;
        assert gs[i].Key in Genres(books);
      }
    }
  }

  /** The dictionary built from a grouping of `books` has exactly the genres of `books` as keys. */
  lemma DictionaryKeysAreGenres(books: seq<Book>, gs: seq<Grouping>, m: map<string, seq<Book>>)
    requires KeysAreGenres(books, gs)
    requires IsDictionaryOf(gs, m)
    ensures forall g :: g in m <==> exists b :: b in books && b.Genre == Some(g)
  {
    forall g ensures g in m <==> exists b :: b in books && b.Genre == Some(g) {
      if g in m {
        var i :| 0 <= i < |gs| && gs[i].Key == Some(g);
        assert gs[i] in gs;
        assert Some(g) in Genres(books);
      }
      if exists b :: b in books && b.Genre == Some(g) {
        var b :| b in books && b.Genre == Some(g);
        assert Some(g) in Keys(gs);
        var x :| x in gs && x.Key == Some(g);
        var i :| 0 <= i < |gs| && gs[i] == x;
      }
    }
  }

  /** The dictionary built from a grouping of `books` maps each genre to its books. */
  lemma DictionaryValuesAreFilters(books: seq<Book>, gs: seq<Grouping>, m: map<string, seq<Book>>)
    requires GroupsAreFilters(books, gs)
    requires IsDictionaryOf(gs, m)
    ensures forall g :: g in m ==> m[g] == Filter(books, HasGenre(Some(g)))
  {
    forall g | g in m ensures m[g] == Filter(books, HasGenre(Some(g))) {
      var i :| 0 <= i < |gs| && gs[i].Key == Some(g);
    }
  }

  /** `ToDictionary` over the result of `GroupBy`: fails exactly on a null genre, and
      otherwise maps each genre to the books of that genre in input order. */
  lemma GroupByToDictionary(books: seq<Book>)
    ensures var r := ToDictionary(GroupBy(books));
      && (r.Failure? <==> exists b :: b in books && b.Genre.None?)
      && (r.Failure? ==> r.error == NullKey)
      && (r.Success? ==> forall g :: g in r.value <==> exists b :: b in books && b.Genre == Some(g))
      && (r.Success? ==> forall g :: g in r.value ==> r.value[g] == Filter(books, HasGenre(Some(g))))
  {
    var gs := GroupBy(books);
    var r := ToDictionary(gs);
    GroupingKeysNonNull(books, gs);
    if r.Success? {
      DictionaryKeysAreGenres(books, gs, r.value);
      DictionaryValuesAreFilters(books, gs, r.value);
    }
  }
}
