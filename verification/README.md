# BookManager queries in Dafny

This project models the business-logic service `BLBook` of the BookManager catalogue
application. `BLBook` has two read-only queries. Each one reads the full book list from the
repository once with `GetAll()` and computes its answer in memory:

- `FindBooksPublishedAfterYear(year)` keeps the books with `Year > year`, in retrieval order
  (`Where(...).ToList()`).
- `GroupBooksByGenre()` groups the books by their exact genre string (`GroupBy(book => book.Genre)`).
  It then builds a `Dictionary<string, List<Book>>` with `ToDictionary`.

The list that `GetAll()` returns is a parameter `books: seq<Book>`. Both queries are pure
functions of it, so neither one can write anything back to the repository.

Modules:

- `Wrappers` (`wrappers.dfy`): `Option` for a nullable C# reference and `Result` for a call that
  either returns or throws.
- `Seqs` (`seqs.dfy`): `Filter`, one generic order-preserving filter. It is the meaning of
  `Where(p).ToList()`. The module proves that `Filter` is sound and complete and that it
  preserves multiplicities. It also proves that the result is exactly the subsequence at the
  positions where `p` holds, and that filters fuse and commute.
- `Entities` (`book.dfy`): the `Book` record `Book(Id, Title, Author, Genre, Year)`. The field
  order follows the constructor calls in the front ends. The fields follow the `Books` table
  columns. `Genre` is an `Option<string>` because a C# `string` may be null, and a null genre
  changes what the grouping does. `Title` and `Author` are plain strings because neither query
  reads them.
- `Lookup` (`lookup.dfy`): `GroupBy` works the way LINQ's lookup does. Books go in one at a
  time. Each book is appended to the group of its genre, or it opens a new group at the end.
  The contract states that keys are distinct and are exactly the genres present, that groups
  come in first-appearance order, and that each group is the filter of the input by its key.
  `ToDictionary` adds the groups in order. It fails on a null key or a repeated key.
- `BLBook` (`blbook.dfy`): the two queries and the partition and permutation facts about the
  grouping.
- `Scenarios` (`scenarios.dfy`): what the two queries return on concrete catalogues, proved as lemmas.

A null genre does not form its own group: `GroupBy` accepts a null key, but `ToDictionary`
throws `ArgumentNullException` on it, so the whole call fails.
`GroupBooksByGenre` returns `Failure(NullKey)` in exactly that case. An empty-string genre is
an ordinary key.

## Model

| member | source | states |
|---|---|---|
| Seqs.Filter | BookManager.Core/Services/BLBook.cs:47 | `Where(p).ToList()` returns no more elements than its input, returns only input elements that satisfy `p`, and returns every input element that satisfies `p` |
| Seqs.FilterMultiset | BookManager.Core/Services/BLBook.cs:47 | each value occurs in the result as often as in the input if it satisfies `p`, and never otherwise |
| Seqs.FilterAtPositions | BookManager.Core/Services/BLBook.cs:47 | the result is the input read at the strictly increasing positions where `p` holds, and only those |
| BLBook.FindBooksPublishedAfterYear | BookManager.Core/Services/BLBook.cs:44-48 | only books with `Year > year` are returned, so a book of exactly `year` is excluded; every such input book is returned, with its multiplicity; the result is an order-preserving subsequence and no longer than the input |
| BLBook.FindBooksPublishedAfterYearPositions | BookManager.Core/Services/BLBook.cs:46-47 | the answer is the retrieval list at exactly the increasing indices whose book is newer than `year` |
| BLBook.FindBooksPublishedAfterYearComposes | BookManager.Core/Services/BLBook.cs:47 | asking after `y1` and then after `y2` gives the same answer as asking once after the later year |
| BLBook.FindBooksPublishedAfterYearAntitone | BookManager.Core/Services/BLBook.cs:47 | the answer for a later year is an order-preserving subsequence of the answer for an earlier year |
| Lookup.IndexOfKey | BookManager.Core/Services/BLBook.cs:35 | the lookup finds the group whose key equals the genre, or reports that no group has that key |
| Lookup.AddToGroups | BookManager.Core/Services/BLBook.cs:35 | one step of the lookup: a book of an unseen genre opens a new group at the end holding just that book; a book of a seen genre is appended to one group with that key and every other group is unchanged; the key set gains exactly the book's genre |
| Lookup.AddToGroupsIsGrouping | BookManager.Core/Services/BLBook.cs:35 | one lookup step turns a valid grouping of `books` (distinct keys equal to the genres present, first-appearance order, each group its key's filter) into a valid grouping of `books` followed by the new book |
| Lookup.GroupBy | BookManager.Core/Services/BLBook.cs:35 | the groups have distinct keys, which are exactly the genres present (null included); they come in the order of each genre's first occurrence; each group is the input filtered by its key, in input order |
| Lookup.ToDictionary | BookManager.Core/Services/BLBook.cs:36 | the dictionary is built exactly when every key is non-null and no key repeats; it then maps each key to its group; a null-key failure implies a null key, and a duplicate-key failure implies a repeated key |
| Lookup.GroupByToDictionary | BookManager.Core/Services/BLBook.cs:35-36 | grouping and then building the dictionary fails exactly when some genre is null, and only with the null-key error; on success the keys are the genres present and each value is that genre's filter |
| BLBook.GroupBooksByGenre | BookManager.Core/Services/BLBook.cs:32-37 | fails exactly when some book has a null genre; otherwise each key is a genre that occurs, each occurring genre is a key, and each value is the input filtered by exact genre equality; empty input gives an empty dictionary |
| BLBook.GroupKeysAreGenres | BookManager.Core/Services/BLBook.cs:32-36 | when no genre is null the grouping succeeds; the dictionary's key set equals the set of distinct genres of the input, and its size equals the number of distinct genres |
| BLBook.GroupMembersHaveGenre | BookManager.Core/Services/BLBook.cs:35-36 | every book stored under key `g` has genre `g`, and no group is empty |
| BLBook.EachBookInExactlyOneGroup | BookManager.Core/Services/BLBook.cs:35-36 | every input book is in the group of its own genre; for each key, an input book is in that group exactly when its genre is that key |
| BLBook.GroupsKeepInputOrder | BookManager.Core/Services/BLBook.cs:35-36 | each group is an order-preserving subsequence of the input list |
| BLBook.ConcatIsFilter | BookManager.Core/Services/BLBook.cs:35-36 | concatenating the groups of distinct keys gives, as a multiset, the books whose genre is among those keys |
| BLBook.GroupsPermuteBooks | BookManager.Core/Services/BLBook.cs:35-36 | for any listing of the keys with each key once, the concatenated groups are a permutation of the input, so the group sizes sum to the input length |
| BLBook.GroupingAfterYearFilter | BookManager.Core/Services/BLBook.cs:32-48 | grouping the books newer than `year` gives, for each genre, the newer books of that genre's group; a genre keeps a group exactly when it has a newer book |
| Scenarios.AfterYearDropsFirst | BookManager.Core/Services/BLBook.cs:47 | of three books, only the first published no later than `year`, the query returns the second and third in that order |
| Scenarios.AfterYearExample | BookManager.Core/Services/BLBook.cs:47 | for books from 1999, 2001 and 2020, asking after 2000 returns the 2001 and 2020 books in that order |
| Scenarios.AfterYearIsStrict | BookManager.Core/Services/BLBook.cs:47 | a book is not returned when asking after its own year |
| Scenarios.GroupTwoGenres | BookManager.Core/Services/BLBook.cs:35-36 | two books of one genre and one book of another give exactly two groups, of sizes two and one, in input order |
| Scenarios.GroupByGenreExample | BookManager.Core/Services/BLBook.cs:35-36 | two "SciFi" books and one "Drama" book give the groups `"SciFi"` with two books and `"Drama"` with one |
| Scenarios.GenreIsCaseSensitive | BookManager.Core/Services/BLBook.cs:35-36 | "Drama" and "drama" are different keys |
| Scenarios.NullGenreFails | BookManager.Core/Services/BLBook.cs:36 | one book with a null genre makes the grouping fail with the null-key error |

## Left out

- CRUD passthroughs (`CRUD.cs`, `BookService.cs`): each is a one-line delegation to the repository. Their only property is that arguments and results pass through unchanged.
- Repositories (`EntityRepository.cs`, `DapperBookRepository.cs`, `BookContext.cs`): these wrap Entity Framework Core, Dapper and SQL Server, whose behaviour is not visible. Id assignment, `Find`/`SetValues` and SQL execution are therefore not modelled. `GetAll()` becomes the `books` parameter, taken in the order the store returned it. Storage exceptions from `GetAll()` are not modelled.
- Dependency injection (`SimpleConfigModule.cs`) and the connection string (`AppConfig.cs`): configuration with no logic.
- Front ends (`Program.cs`, `Form1.cs`): console and form I/O. This includes the `0 <= year <= 2025` input check, which exists only in the front ends and not in the entity or the service.
- Dictionary enumeration order: the result of `GroupBooksByGenre` is an unordered Dafny `map`. The first-appearance order of the groups is stated on `Lookup.GroupBy`, before `ToDictionary`. The order in which `Dictionary` enumerates its entries is an implementation detail of .NET.
- Integer width: `Year` and the `year` argument are unbounded `int`s. The queries only compare them, so a 32-bit range makes no difference.
- Nullable `Title`, `Author` and a null `Book` element: neither query reads `Title` or `Author`. A null element would throw in the key selector, and the repository never returns one.
