# BookStore persistence layer in Dafny

This project models the persistence layer of the BookStore web service. The
store holds three tables keyed by integer id:

- books, with title, price, quantity available, author id and genre id;
- authors, with a name;
- genres, with a name.

A book refers to its author and its genre through foreign keys. An author's
or a genre's `Books` is not stored; it is the set of books whose `AuthorId`
or `GenreId` names it. Three repositories work on the store:

- The book repository has get by id, list all, add, update and remove. It
  also has three searches: by title, by author name and by genre name.
- The author repository has get by id, list all, add, update and remove.
- The genre repository has get by id, list all, add, update and remove.
  Removing a genre cascades to the books that reference it.

The modules are:

- `Text`: ASCII lower-casing and contiguous-substring matching. Each search
  keeps a book when the lower-cased field contains the lower-cased query.
  This module also proves `Contains` against an independent "occurs at
  position i" definition.
- `Catalog`: the entities, the table invariants, and the key and
  foreign-key rules. It defines the derived `Books` relations, eager loading,
  the search filter and the reference set each search must return, and the
  cascade-delete functions, with lemmas about them.
- `Persistence`: the class `BooksDbContext`. It owns the three tables as
  maps, plus one identity counter per table. Every repository operation is a
  method or function on it, and `Valid()` is the class invariant:
  - every row is stored under its id;
  - every book references an existing author and an existing genre;
  - every counter is ahead of the ids in its table.

  Reads change nothing. Each write is one atomic update of the maps, and
  says how it fails:
  - `MissingRow` when an update or remove finds no row;
  - `DuplicateKey` when an add supplies an explicit id already in use;
  - `ForeignKeyViolation` when a book names a missing author or genre.
- `Scenarios`: client code that reasons only from the repository contracts.
  It uses the one-book catalog of the controller tests ("The Shining" by
  Stephen King, genre "Horror"). It covers add then get (as the repository
  tests do), a price update then get, an author search, and the removal of
  a genre that still has a book, which cascades to that book.

An add whose id is 0 takes the table's next identity value. An add with an
explicit unused id keeps that id and moves the counter past it. A refused
insert uses up no value. Ids are assigned as Entity Framework's in-memory
provider assigns them, the provider the repository tests run on
(BookStoreTests/BookRepositoryTests.cs:19-21). The foreign-key rules are
taken from the relational schema instead (the context's relationships
and the FixForeignKey migration): a book naming a missing author or genre
is refused, and deleting a genre deletes all of its books. The in-memory
provider enforces neither. Listing operations return every row exactly
once, in an order the store does not define. The model states this as
`Enumerates`: no duplicates, and exactly the reference set's elements.

## Model

| member | source | states |
|---|---|---|
| Text.ContainsIffOccurs | BookStore/Persistence/Repostories/BookRepository.cs:46 | `Contains(s, q)` holds exactly when `q` occurs as a contiguous run at some position of `s` (both directions) |
| Text.ToLowerIdempotent | BookStore/Persistence/Repostories/BookRepository.cs:46 | lower-casing an already lower-cased string changes nothing |
| Text.QueryCaseIrrelevant | BookStore/Persistence/Repostories/BookRepository.cs:46 | a field matches a query exactly when it matches the query's lower-cased form |
| Text.EmptyQueryMatches | BookStore/Persistence/Repostories/BookRepository.cs:46 | every field matches the empty query |
| Text.InfixMatchesIgnoringCase | BookStore/Persistence/Repostories/BookRepository.cs:51 | a field embedding a word matches any query equal to that word up to case |
| Text.ShiningMatchesUpperCaseQuery | BookStore/Persistence/Repostories/BookRepository.cs:46 | the title "The Shining" matches the query "SHINING" |
| Text.KingMatchesAuthorName | BookStore/Persistence/Repostories/BookRepository.cs:51 | the author name "Stephen King" matches the query "king" |
| Catalog.EachBookHasOneAuthor | BookStore/Persistence/BooksDbContext.cs:19-22 | every stored book is in the `Books` of some stored author, and of only one |
| Catalog.EachBookHasOneGenre | BookStore/Persistence/BooksDbContext.cs:24-27 | every stored book is in the `Books` of some stored genre, and of only one |
| Catalog.Where | BookStore/Persistence/Repostories/BookRepository.cs:44-57 | the filter keeps a row exactly when it is in the input and matches; the kept rows stay in input order (a subsequence); it keeps a duplicate-free input duplicate-free; it never grows the input |
| Catalog.EmptyQueryMatchesAll | BookStore/Persistence/Repostories/BookRepository.cs:44-47 | for every field, the empty query selects every stored book |
| Catalog.SearchIgnoresQueryCase | BookStore/Persistence/Repostories/BookRepository.cs:44-57 | a search selects the same books as a search for its lower-cased query |
| Catalog.EnumeratesSize | BookStore/Persistence/Repostories/BookRepository.cs:21-24 | a list naming each element of a set exactly once has one entry per element |
| Catalog.RemoveGenreKeepsIntegrity | BookStore/Migrations/20230926165551_FixForeignKey.cs:29-35 | after cascading the genre delete, rows stay keyed, every remaining book names an existing author and a remaining genre, and the deleted genre has no books |
| Catalog.RemoveGenreRemovesItsBooks | BookStore/Migrations/20230926165551_FixForeignKey.cs:29-35 | the cascade removes exactly as many rows as the genre had books, and every other book row is kept unchanged |
| Text.ToLower | BookStore/Persistence/Repostories/BookRepository.cs:46 | lower-casing keeps the length, maps each character to its lower-case form, and leaves no upper-case letter |
| Text.Contains | BookStore/Persistence/Repostories/BookRepository.cs:46 | a contained string is never longer than its container, and the empty string is contained in every string |
| Catalog.BooksOfAuthor | BookStore/Persistence/BooksDbContext.cs:19-22 | an author's `Books` are stored books that all carry that author id, and every stored book with that author id is among them |
| Catalog.BooksOfGenre | BookStore/Persistence/BooksDbContext.cs:24-27 | a genre's `Books` are stored books that all carry that genre id, and every stored book with that genre id is among them |
| Catalog.WithoutGenre | BookStore/Migrations/20230926165551_FixForeignKey.cs:29-35 | the books table after the cascade keeps exactly the rows whose genre is not the deleted one, each unchanged |
| Catalog.WithoutAuthor | BookStore/Persistence/BooksDbContext.cs:19-22 | the books table after the assumed author cascade keeps exactly the rows whose author is not the deleted one, each unchanged |
| Persistence.AssignedId | BookStore/Persistence/Repostories/BookRepository.cs:26-30 | an insert keeps a nonzero id the caller supplied; with the counter at 1 or more, the id it gets is never 0 |
| Persistence.Advance | BookStore/Persistence/Repostories/BookRepository.cs:26-30 | after an insert the identity counter never goes back and is past the id just stored |
| Persistence.AssignedIdIsFresh | BookStore/Persistence/Repostories/BookRepository.cs:26-30 | while the counter is ahead of every stored id, an insert that does not ask for a taken id gets a nonzero id no row has |
| Persistence.AdvanceKeepsIdsBelow | BookStore/Persistence/Repostories/BookRepository.cs:26-30 | storing a row under a nonzero id and advancing the counter keeps the counter ahead of every stored id |
| Persistence.RowIds | BookStore/Persistence/BooksDbContext.cs:8-10 | the loop lists every key of a table exactly once, one entry per row |
| Persistence.BooksDbContext.constructor | BookStore/Persistence/BooksDbContext.cs:12-15 | a new context holds three empty tables, satisfies the invariant, and each identity counter starts at 1 |
| Persistence.BooksDbContext.GetBookById | BookStore/Persistence/Repostories/BookRepository.cs:16-19 | returns a book exactly when a stored book has that id; that book has the id, and its author and genre are the stored rows it references; otherwise None |
| Persistence.BooksDbContext.GetBooks | BookStore/Persistence/Repostories/BookRepository.cs:21-24 | lists every stored book with its author and genre exactly once, no more and no fewer, each populated from the stored rows |
| Persistence.BooksDbContext.AddBook | BookStore/Persistence/Repostories/BookRepository.cs:26-30 | fails with DuplicateKey exactly when the explicit id is taken, then with ForeignKeyViolation exactly when the author or genre is missing; otherwise stores the book under a fresh nonzero id, changes nothing else, keeps the invariant, and get by id then returns the book with its author and genre |
| Persistence.BooksDbContext.UpdateBook | BookStore/Persistence/Repostories/BookRepository.cs:32-36 | fails with MissingRow exactly when no book has the id, then with ForeignKeyViolation exactly when the new author or genre is missing; otherwise replaces the whole row, and get by id returns the new row with its author and genre |
| Persistence.BooksDbContext.RemoveBook | BookStore/Persistence/Repostories/BookRepository.cs:38-42 | deletes the row with that id (MissingRow when there is none); authors, genres and other books are unchanged, and get by id then returns None |
| Persistence.BooksDbContext.SearchByTitle | BookStore/Persistence/Repostories/BookRepository.cs:44-47 | lists, each exactly once, the stored books whose lower-cased title contains the lower-cased query |
| Persistence.BooksDbContext.SearchByAuthor | BookStore/Persistence/Repostories/BookRepository.cs:49-52 | lists, each exactly once, the stored books whose author's lower-cased name contains the lower-cased query |
| Persistence.BooksDbContext.SearchByGenre | BookStore/Persistence/Repostories/BookRepository.cs:54-57 | lists, each exactly once, the stored books whose genre's lower-cased name contains the lower-cased query |
| Persistence.BooksDbContext.SearchBy | BookStore/Persistence/Repostories/BookRepository.cs:44-57 | the shared search: list all loaded books, then filter; the result enumerates the reference set `Matching` and has its size |
| Persistence.BooksDbContext.GetAuthorById | BookStore/Persistence/Repostories/AuthorRepository.cs:16-19 | returns an author exactly when a stored author has that id, with exactly the stored books whose author id is that id; otherwise None |
| Persistence.BooksDbContext.GetAuthors | BookStore/Persistence/Repostories/AuthorRepository.cs:21-24 | lists every stored author exactly once, each with exactly the books that reference it (none for an author without books) |
| Persistence.BooksDbContext.AddAuthor | BookStore/Persistence/Repostories/AuthorRepository.cs:26-30 | fails with DuplicateKey exactly when the explicit id is taken; otherwise stores the author under a fresh nonzero id, changes nothing else, and get by id then returns it with no books |
| Persistence.BooksDbContext.UpdateAuthor | BookStore/Persistence/Repostories/AuthorRepository.cs:32-36 | fails with MissingRow exactly when no author has the id; otherwise overwrites that row only, and get by id returns the new name with the same books |
| Persistence.BooksDbContext.RemoveAuthor | BookStore/Persistence/Repostories/AuthorRepository.cs:38-42 | deletes the author (MissingRow when absent) and, by assumption, its books; keeps the invariant, and get by id then returns None |
| Persistence.BooksDbContext.GetGenreById | BookStore/Persistence/Repostories/GenreRepository.cs:16-19 | returns a genre exactly when a stored genre has that id, with exactly the stored books whose genre id is that id; otherwise None |
| Persistence.BooksDbContext.GetGenres | BookStore/Persistence/Repostories/GenreRepository.cs:21-24 | lists every stored genre exactly once, each with exactly the books that reference it (none for a genre without books) |
| Persistence.BooksDbContext.AddGenre | BookStore/Persistence/Repostories/GenreRepository.cs:26-30 | fails with DuplicateKey exactly when the explicit id is taken; otherwise stores the genre under a fresh nonzero id, changes nothing else, and get by id then returns it with no books |
| Persistence.BooksDbContext.UpdateGenre | BookStore/Persistence/Repostories/GenreRepository.cs:32-36 | fails with MissingRow exactly when no genre has the id; otherwise overwrites that row only, and get by id returns the new name with the same books |
| Persistence.BooksDbContext.RemoveGenre | BookStore/Persistence/Repostories/GenreRepository.cs:38-42 | deletes the genre (MissingRow when absent) and every book referencing it, and no other row; no book is left orphaned, the books table shrinks by the genre's book count, and get by id then returns None |
| Scenarios.AddShining | BookStoreTests/BookRepositoryTests.cs:75-90 | adding an author, a genre and a book to an empty store assigns each id 1, and the book then reads back with its author and genre |
| Scenarios.SearchKing | BookStore/Persistence/Repostories/BookRepository.cs:49-52 | in the one-book store, the author search for "king" returns exactly that book |
| Scenarios.UpdatePrice | BookStore/Persistence/Repostories/BookRepository.cs:32-36 | after updating the price, get by id returns the new price and the unchanged title, author and genre |
| Scenarios.RemoveHorror | BookStore/Persistence/Repostories/GenreRepository.cs:38-42 | removing the only genre empties the genres table and deletes its book; the author stays, and get by id of the book returns None |

## Left out

- The HTTP controllers are not part of this model. This covers routing,
  result wrapping and the id-mismatch guard. Their null checks on search
  results cannot fire, because a search always returns a list.
- The Entity Framework mechanics are not modelled: change tracking,
  `EntityState.Modified`, `Include` loading, `SaveChanges` transactions and
  async tasks. Each write is one atomic update of the maps.
- Migrations are schema tooling and their `Up`/`Down` steps are not
  modelled. FixForeignKey.cs serves only as the evidence for the
  non-nullable `GenreId` and its cascade delete.
- The entity classes under BookStore/Models are not part of this model.
  Their fields are taken from the repositories and the tests.
- Lower-casing is ASCII only. .NET culture rules and database collation are
  not modelled.
- Price is an exact `real`; the decimal column's precision and scale are
  not modelled. Price is only stored and compared, never computed with.
- Ids are unbounded integers. The 32-bit range of `int` and identity
  overflow are not modelled.
- Null references are not modelled: null strings, null entities and a book
  whose author or genre is null.
- Concurrency between requests and last-write-wins behaviour are not
  modelled. The failure of an unavailable database is not modelled either.
- Persistence.BooksDbContext.RemoveAuthor: cascading to the author's books
  is an assumption. The context configures no delete behaviour for
  `AuthorId`, and the FixForeignKey migration declares cascade only for `GenreId`.
- Persistence.BooksDbContext.AddBook: when an explicit id is taken and the
  author or genre is also missing, the model reports DuplicateKey. The
  source does not fix which of the two errors wins.
- Persistence.BooksDbContext.UpdateBook: when no book has the id and the
  author or genre is also missing, the model reports MissingRow. The source
  does not fix which of the two errors wins.
- The order of rows in listings is left to the store. The contracts state
  membership, no duplicates and the count, not the order. A search keeps
  the order of the listing it filters.
- Persistence.BooksDbContext.AddBook, Persistence.BooksDbContext.AddAuthor
  and Persistence.BooksDbContext.AddGenre assign ids as the in-memory
  provider does. They do not model a relational identity column, which refuses an explicit
  id unless identity insert is turned on and can skip values after a
  failed insert.
- Persistence.BooksDbContext.AddBook and Persistence.BooksDbContext.UpdateBook
  refuse a book whose author or genre is missing, as the relational schema
  does (BookStore/Persistence/BooksDbContext.cs:19-27). The in-memory
  provider enforces no foreign keys and would store such a book.
- Persistence.BooksDbContext.RemoveGenre deletes every book of the genre,
  as the cascade in the relational schema does
  (BookStore/Migrations/20230926165551_FixForeignKey.cs:29-35). The
  in-memory provider has no database-side cascade. It deletes only those
  books that are already loaded into the context, and that case is not
  modelled.
- Persistence.BooksDbContext.AddAuthor: adding an entity also inserts the
  untracked entities reachable from it, such as an author's `Books` list
  (BookStoreTests/AuthorRepositoryTests.cs:31-32). That graph insertion is
  not modelled. The author is a flat row, so a newly added author has no
  books.
- Persistence.BooksDbContext.AddGenre: the same graph insertion is not
  modelled, so a newly added genre has no books.
- Persistence.BooksDbContext.AddBook: the same graph insertion is not
  modelled. A book names its author and genre by id, so adding it never
  creates a new author or genre.
