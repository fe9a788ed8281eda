/** The catalog's entities and the pure queries over its three id-keyed
    tables. A table is a map from id to row; relationships are id fields
    (a book's `authorId` and `genreId`), and an author's or genre's books
    are always computed from the books table, never stored. */
module Catalog {
  import opened Text

  datatype Option<T> = None | Some(value: T)

  /** Why the store refused a write. */
  datatype StoreError =
    | MissingRow           // Update or Remove of an id with no row
    | DuplicateKey         // Add with an explicit id that is already taken
    | ForeignKeyViolation  // a book naming an author or genre that does not exist

  /** Result of an insert: the id the row was stored under, or the refusal. */
  datatype Inserted = Inserted(id: int) | InsertFailed(error: StoreError)

  /** Result of an update or a delete. */
  datatype Outcome = Done | Failed(error: StoreError)

  datatype Author = Author(id: int, name: string)

  datatype Genre = Genre(id: int, name: string)

  /** A stored book row: the decimal price is kept as an exact `real`. */
  datatype Book = Book(id: int, title: string, price: real, quantityAvailable: int,
                       authorId: int, genreId: int)

  /** A book as the reads return it: with its author and genre loaded. */
  datatype LoadedBook = LoadedBook(book: Book, author: Author, genre: Genre)

  /** An author as the reads return it: with the books that reference it. */
  datatype LoadedAuthor = LoadedAuthor(author: Author, books: set<Book>)

  /** A genre as the reads return it: with the books that reference it. */
  datatype LoadedGenre = LoadedGenre(genre: Genre, books: set<Book>)

  // ---------------------------------------------------------------------
  // Table invariants

  /** Every row is stored under its own id. */
  predicate BooksKeyed(books: map<int, Book>) {
    forall id :: id in books ==> books[id].id == id
  }

  predicate AuthorsKeyed(authors: map<int, Author>) {
    forall id :: id in authors ==> authors[id].id == id
  }

  predicate GenresKeyed(genres: map<int, Genre>) {
    forall id :: id in genres ==> genres[id].id == id
  }

  /** Referential integrity: every stored book names an existing author and
      an existing genre. */
  predicate ForeignKeysHold(books: map<int, Book>, authors: map<int, Author>, genres: map<int, Genre>) {
    forall b :: b in books.Values ==> b.authorId in authors && b.genreId in genres
  }

  /** A row found among a keyed table's values is the one stored under its id. */
  lemma StoredBookIsKeyed(books: map<int, Book>, b: Book)
    requires BooksKeyed(books) && b in books.Values
    ensures b.id in books && books[b.id] == b
  {
    if forall id :: id in books ==> books[id] != b { assert false; }
  }

  lemma StoredAuthorIsKeyed(authors: map<int, Author>, a: Author)
    requires AuthorsKeyed(authors) && a in authors.Values
    ensures a.id in authors && authors[a.id] == a
  {
    if forall id :: id in authors ==> authors[id] != a { assert false; }
  }

  lemma StoredGenreIsKeyed(genres: map<int, Genre>, g: Genre)
    requires GenresKeyed(genres) && g in genres.Values
    ensures g.id in genres && genres[g.id] == g
  {
    if forall id :: id in genres ==> genres[id] != g { assert false; }
  }

  // ---------------------------------------------------------------------
  // Relationships and eager loading

  /** The books whose author is `authorId` (an author's `Books`). */
  function BooksOfAuthor(books: map<int, Book>, authorId: int): (r: set<Book>)
    ensures r <= books.Values
    ensures forall b :: b in r ==> b.authorId == authorId
    ensures forall id :: id in books && books[id].authorId == authorId ==> books[id] in r
  {
    set b | b in books.Values && b.authorId == authorId
  }

  /** The books whose genre is `genreId` (a genre's `Books`). */
  function BooksOfGenre(books: map<int, Book>, genreId: int): (r: set<Book>)
    ensures r <= books.Values
    ensures forall b :: b in r ==> b.genreId == genreId
    ensures forall id :: id in books && books[id].genreId == genreId ==> books[id] in r
  {
    set b | b in books.Values && b.genreId == genreId
  }

  /** `b` together with the author and genre it references. */
  function Load(b: Book, authors: map<int, Author>, genres: map<int, Genre>): LoadedBook
    requires b.authorId in authors && b.genreId in genres
  {
    LoadedBook(b, authors[b.authorId], genres[b.genreId])
  }

  /** The author and genre carried by `lb` are the stored ones its book references. */
  predicate Populated(lb: LoadedBook, authors: map<int, Author>, genres: map<int, Genre>) {
    lb.author in authors.Values && lb.author.id == lb.book.authorId &&
    lb.genre in genres.Values && lb.genre.id == lb.book.genreId
  }

  /** Every stored book, each with its author and genre. */
  function AllLoadedBooks(books: map<int, Book>, authors: map<int, Author>, genres: map<int, Genre>): set<LoadedBook>
    requires ForeignKeysHold(books, authors, genres)
  {
    set b | b in books.Values :: Load(b, authors, genres)
  }

  /** Every stored author, each with its books. */
  function AllLoadedAuthors(books: map<int, Book>, authors: map<int, Author>): set<LoadedAuthor> {
    set a | a in authors.Values :: LoadedAuthor(a, BooksOfAuthor(books, a.id))
  }

  /** Every stored genre, each with its books. */
  function AllLoadedGenres(books: map<int, Book>, genres: map<int, Genre>): set<LoadedGenre> {
    set g | g in genres.Values :: LoadedGenre(g, BooksOfGenre(books, g.id))
  }

  /** Every stored book belongs to exactly one stored author's `Books`. */
  lemma EachBookHasOneAuthor(books: map<int, Book>, authors: map<int, Author>, genres: map<int, Genre>, b: Book)
    requires AuthorsKeyed(authors) && ForeignKeysHold(books, authors, genres)
    requires b in books.Values
    ensures exists a :: a in authors.Values && b in BooksOfAuthor(books, a.id)
    ensures forall a1, a2 ::
              (a1 in authors.Values && a2 in authors.Values &&
               b in BooksOfAuthor(books, a1.id) && b in BooksOfAuthor(books, a2.id)) ==> a1 == a2
  {
    var a := authors[b.authorId];
    assert a in authors.Values && b in BooksOfAuthor(books, a.id);
    forall a1, a2 | a1 in authors.Values && a2 in authors.Values &&
              b in BooksOfAuthor(books, a1.id) && b in BooksOfAuthor(books, a2.id)
      ensures a1 == a2
    {
      StoredAuthorIsKeyed(authors, a1);
      StoredAuthorIsKeyed(authors, a2);
    }
  }

  /** Every stored book belongs to exactly one stored genre's `Books`. */
  lemma EachBookHasOneGenre(books: map<int, Book>, authors: map<int, Author>, genres: map<int, Genre>, b: Book)
    requires GenresKeyed(genres) && ForeignKeysHold(books, authors, genres)
    requires b in books.Values
    ensures exists g :: g in genres.Values && b in BooksOfGenre(books, g.id)
    ensures forall g1, g2 ::
              (g1 in genres.Values && g2 in genres.Values &&
               b in BooksOfGenre(books, g1.id) && b in BooksOfGenre(books, g2.id)) ==> g1 == g2
  {
    var g := genres[b.genreId];
    assert g in genres.Values && b in BooksOfGenre(books, g.id);
    forall g1, g2 | g1 in genres.Values && g2 in genres.Values &&
              b in BooksOfGenre(books, g1.id) && b in BooksOfGenre(books, g2.id)
      ensures g1 == g2
    {
      StoredGenreIsKeyed(genres, g1);
      StoredGenreIsKeyed(genres, g2);
    }
  }

  // ---------------------------------------------------------------------
  // Searches

  /** The field a search compares against. */
  datatype BookField = Title | AuthorName | GenreName

  function FieldOf(lb: LoadedBook, field: BookField): string {
    match field
    case Title => lb.book.title
    case AuthorName => lb.author.name
    case GenreName => lb.genre.name
  }

  /** The search's filter: the lower-cased field contains the lower-cased query. */
  predicate Matches(lb: LoadedBook, field: BookField, query: string) {
    ContainsIgnoreCase(FieldOf(lb, field), query)
  }

  /** The books a search for `query` on `field` must return. */
  function Matching(books: map<int, Book>, authors: map<int, Author>, genres: map<int, Genre>,
                    field: BookField, query: string): set<LoadedBook>
    requires ForeignKeysHold(books, authors, genres)
  {
    set lb | lb in AllLoadedBooks(books, authors, genres) && Matches(lb, field, query)
  }

  /** `a` is `b` with some entries dropped and the rest kept in order. */
  predicate Subsequence<T(==)>(a: seq<T>, b: seq<T>)
    decreases |b|
  {
    a == [] || (b != [] && ((a[0] == b[0] && Subsequence(a[1..], b[1..])) || Subsequence(a, b[1..])))
  }

  /** The rows of `rows` that match, in their order (a Where filter). */
  function Where(rows: seq<LoadedBook>, field: BookField, query: string): (r: seq<LoadedBook>)
    ensures forall lb :: lb in r <==> lb in rows && Matches(lb, field, query)
    ensures Subsequence(r, rows)
    ensures NoDuplicates(rows) ==> NoDuplicates(r)
    ensures |r| <= |rows|
  {
    if rows == [] then []
    else if Matches(rows[0], field, query) then
      var rest := Where(rows[1..], field, query);
      assert ([rows[0]] + rest)[1..] == rest;
      [rows[0]] + rest
    else Where(rows[1..], field, query)
  }

  /** The empty query selects every stored book, for each field. */
  lemma EmptyQueryMatchesAll(books: map<int, Book>, authors: map<int, Author>, genres: map<int, Genre>,
                             field: BookField)
    requires ForeignKeysHold(books, authors, genres)
    ensures Matching(books, authors, genres, field, "") == AllLoadedBooks(books, authors, genres)
  {
    forall lb | lb in AllLoadedBooks(books, authors, genres)
      ensures Matches(lb, field, "")
    {
      EmptyQueryMatches(FieldOf(lb, field));
    }
  }

  /** A search selects the same books as the search for its lower-cased query. */
  lemma SearchIgnoresQueryCase(books: map<int, Book>, authors: map<int, Author>, genres: map<int, Genre>,
                               field: BookField, query: string)
    requires ForeignKeysHold(books, authors, genres)
    ensures Matching(books, authors, genres, field, ToLower(query)) == Matching(books, authors, genres, field, query)
  {
    forall lb | lb in AllLoadedBooks(books, authors, genres)
      ensures Matches(lb, field, ToLower(query)) == Matches(lb, field, query)
    {
      QueryCaseIrrelevant(FieldOf(lb, field), query);
    }
  }

  // ---------------------------------------------------------------------
  // Listing

  ghost predicate NoDuplicates<T>(s: seq<T>) {
    forall i, j :: 0 <= i < j < |s| ==> s[i] != s[j]
  }

  /** `s` lists the elements of `elems` exactly once each. */
  ghost predicate Enumerates<T(!new)>(s: seq<T>, elems: set<T>) {
    NoDuplicates(s) && forall x :: x in s <==> x in elems
  }

  /** A list enumerating a set has one entry per element: no more, no fewer. */
  lemma {:induction false} EnumeratesSize<T(!new)>(s: seq<T>, elems: set<T>)
    requires Enumerates(s, elems)
    ensures |s| == |elems|
  {
    if s != [] {
      var rest := s[1..];
      assert Enumerates(rest, elems - {s[0]}) by {
        forall x
          ensures x in rest <==> x in elems - {s[0]}
        {
          if x in rest {
            var j :| 0 <= j < |rest| && rest[j] == x;
            assert s[j + 1] == x;
          }
          if x in elems - {s[0]} {
            var j :| 0 <= j < |s| && s[j] == x;
            assert j != 0;
            assert rest[j - 1] == x;
          }
        }
      }
      EnumeratesSize(rest, elems - {s[0]});
    }
  }

  // ---------------------------------------------------------------------
  // Cascade delete

  /** The books table after deleting genre `genreId` with cascade: every
      book referencing the genre goes with it. */
  function WithoutGenre(books: map<int, Book>, genreId: int): (r: map<int, Book>)
    ensures r.Keys <= books.Keys
    ensures forall id :: id in r ==> r[id] == books[id] && r[id].genreId != genreId
    ensures forall id :: id in books && books[id].genreId != genreId ==> id in r
  {
    map id | id in books && books[id].genreId != genreId :: books[id]
  }

  /** The books table after deleting author `authorId` with cascade. */
  function WithoutAuthor(books: map<int, Book>, authorId: int): (r: map<int, Book>)
    ensures r.Keys <= books.Keys
    ensures forall id :: id in r ==> r[id] == books[id] && r[id].authorId != authorId
    ensures forall id :: id in books && books[id].authorId != authorId ==> id in r
  {
    map id | id in books && books[id].authorId != authorId :: books[id]
  }

  /** Deleting a genre with cascade keeps the three tables consistent. */
  lemma RemoveGenreKeepsIntegrity(books: map<int, Book>, authors: map<int, Author>, genres: map<int, Genre>,
                                  genreId: int)
    requires BooksKeyed(books) && ForeignKeysHold(books, authors, genres)
    ensures BooksKeyed(WithoutGenre(books, genreId))
    ensures ForeignKeysHold(WithoutGenre(books, genreId), authors, genres - {genreId})
    ensures BooksOfGenre(WithoutGenre(books, genreId), genreId) == {}
  {
  }

  /** The ids of the books whose genre is `genreId`. */
  function GenreBookIds(books: map<int, Book>, genreId: int): set<int> {
    set id | id in books && books[id].genreId == genreId
  }

  /** A genre's books are the rows stored under its book ids. */
  lemma GenreBooksAreRowsOfIds(books: map<int, Book>, genreId: int)
    requires BooksKeyed(books)
    ensures BooksOfGenre(books, genreId) == set id | id in GenreBookIds(books, genreId) :: books[id]
  {
    var image := set id | id in GenreBookIds(books, genreId) :: books[id];
    assert BooksOfGenre(books, genreId) <= image by {
      forall b | b in BooksOfGenre(books, genreId) ensures b in image {
        StoredBookIsKeyed(books, b);
      }
    }
    assert image <= BooksOfGenre(books, genreId);
  }

  /** Deleting a genre whose books number N removes exactly those N rows
      and keeps every other row as it was. */
  lemma RemoveGenreRemovesItsBooks(books: map<int, Book>, genreId: int)
    requires BooksKeyed(books)
    ensures |WithoutGenre(books, genreId)| == |books| - |BooksOfGenre(books, genreId)|
    ensures forall id :: id in books && books[id].genreId != genreId ==>
              id in WithoutGenre(books, genreId) && WithoutGenre(books, genreId)[id] == books[id]
  {
    var gone := GenreBookIds(books, genreId);
    var kept := WithoutGenre(books, genreId);
    assert kept.Keys <= books.Keys - gone && books.Keys - gone <= kept.Keys;
    assert kept.Keys == books.Keys - gone;
    SizeOfDifference(books.Keys, gone);
    GenreBooksAreRowsOfIds(books, genreId);
    SizeOfKeyedImage(books, gone);
  }

  /** A set of ids and the rows stored under them have the same size. */
  lemma {:induction false} SizeOfKeyedImage(books: map<int, Book>, ids: set<int>)
    requires BooksKeyed(books) && ids <= books.Keys
    ensures |set id | id in ids :: books[id]| == |ids|
    decreases ids
  {
    if ids != {} {
      assert exists id :: id in ids by { if forall id :: id !in ids { assert false; } }
      var id :| id in ids;
      var rest := ids - {id};
      SizeOfKeyedImage(books, rest);
      var all, others := set k | k in ids :: books[k], set k | k in rest :: books[k];
      assert all <= others + {books[id]} && others + {books[id]} <= all;
      assert all == others + {books[id]};
      assert books[id] !in others;
    }
  }

  lemma SizeOfDifference(whole: set<int>, part: set<int>)
    requires part <= whole
    ensures |whole - part| == |whole| - |part|
  {
    var rest := whole - part;
    assert rest + part <= whole && whole <= rest + part;
    assert rest + part == whole;
    assert rest * part <= {} && {} <= rest * part;
    assert rest * part == {};
  }
}
