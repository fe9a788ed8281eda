/** The database context and the repositories over it. The context owns
    the three tables (books, authors, genres) and an identity counter per
    table; every repository operation is one atomic step on them: reads
    change nothing, and each write is applied and committed at once. */
module Persistence {
  import opened Text
  import opened Catalog

  /** The id a new row is stored under: the caller's id, or the next
      identity value when the caller left the id at its default 0. */
  function AssignedId(requested: int, next: int): (r: int)
    ensures requested != 0 ==> r == requested
    ensures 1 <= next ==> r != 0
  {
    if requested == 0 then next else requested
  }

  /** The identity counter after a row is stored under `id`: an explicit id
      at or above the counter moves the counter past it. */
  function Advance(next: int, id: int): (r: int)
    ensures next <= r && id < r
  {
    if id >= next then id + 1 else next
  }

  /** Every id of `table` is nonzero and below the table's identity counter. */
  ghost predicate IdsBelow<T>(table: map<int, T>, next: int) {
    1 <= next && 0 !in table && forall id :: id in table ==> id < next
  }

  /** While the counter is ahead of every stored id, the id an insert is
      given is unused unless the caller asked for a taken one. */
  lemma AssignedIdIsFresh<T>(table: map<int, T>, requested: int, next: int)
    requires IdsBelow(table, next)
    requires !(requested != 0 && requested in table)
    ensures AssignedId(requested, next) != 0 && AssignedId(requested, next) !in table
  {
  }

  /** Storing a row under a nonzero id and advancing the counter past it
      keeps the counter ahead of every stored id. */
  lemma AdvanceKeepsIdsBelow<T>(table: map<int, T>, next: int, id: int, row: T)
    requires IdsBelow(table, next) && id != 0
    ensures IdsBelow(table[id := row], Advance(next, id))
  {
  }

  /** The ids of `table`, each exactly once, in the order the store yields
      its rows (which the store does not define). */
  method RowIds<T>(table: map<int, T>) returns (ids: seq<int>)
    ensures Enumerates(ids, table.Keys)
    ensures |ids| == |table|
  {
    ids := [];
    var rest := table.Keys;
    while rest != {}
      invariant rest <= table.Keys
      invariant forall id :: id in ids <==> id in table && id !in rest
      invariant NoDuplicates(ids)
      invariant |ids| + |rest| == |table|
      decreases rest
    {
      assert exists id :: id in rest by {
        if forall id :: id !in rest { assert false; }
      }
      var id :| id in rest;
      ids := ids + [id];
      rest := rest - {id};
    }
  }

  class BooksDbContext {
    var books: map<int, Book>
    var authors: map<int, Author>
    var genres: map<int, Genre>
    var nextBookId: int
    var nextAuthorId: int
    var nextGenreId: int

    /** Each table is keyed by its rows' ids, every book references an
        existing author and genre, and the identity counters are ahead of
        every stored id. */
    ghost predicate Valid()
      reads this
    {
      BooksKeyed(books) && AuthorsKeyed(authors) && GenresKeyed(genres) &&
      ForeignKeysHold(books, authors, genres) &&
      IdsBelow(books, nextBookId) && IdsBelow(authors, nextAuthorId) && IdsBelow(genres, nextGenreId)
    }

    /** A context over an empty database. */
    constructor ()
      ensures Valid()
      ensures books == map[] && authors == map[] && genres == map[]
      ensures nextBookId == 1 && nextAuthorId == 1 && nextGenreId == 1
    {
      books, authors, genres := map[], map[], map[];
      nextBookId, nextAuthorId, nextGenreId := 1, 1, 1;
    }

    // -------------------------------------------------------------------
    // Book repository

    /** The single book whose id is `id`, with its author and genre, or
        None when no book has that id. */
    function GetBookById(id: int): (r: Option<LoadedBook>)
      reads this
      requires Valid()
      ensures r.Some? <==> exists b :: b in books.Values && b.id == id
      ensures r.Some? ==> r.value.book in books.Values && r.value.book.id == id
      ensures r.Some? ==> Populated(r.value, authors, genres)
    {
      if id in books then
        Some(Load(books[id], authors, genres))
      else
        NoBookHasId(id);
        None
    }

    lemma NoBookHasId(id: int)
      requires Valid() && id !in books
      ensures forall b :: b in books.Values ==> b.id != id
    {
      forall b | b in books.Values ensures b.id != id {
        StoredBookIsKeyed(books, b);
      }
    }

    /** Every stored book, each once, with its author and genre. */
    method GetBooks() returns (r: seq<LoadedBook>)
      requires Valid()
      ensures Enumerates(r, AllLoadedBooks(books, authors, genres))
      ensures |r| == |books|
      ensures forall i :: 0 <= i < |r| ==> Populated(r[i], authors, genres)
    {
      var ids := RowIds(books);
      var bs, aus, gs := books, authors, genres;
      r := seq(|ids|, i requires 0 <= i < |ids| && ids[i] in bs && bs[ids[i]] in bs.Values =>
                 Load(bs[ids[i]], aus, gs));
      var all := AllLoadedBooks(books, authors, genres);
      forall i, j | 0 <= i < j < |r| ensures r[i] != r[j] {
        assert ids[i] != ids[j];
      }
      forall x | x in r ensures x in all {
        var i :| 0 <= i < |r| && r[i] == x;
        assert bs[ids[i]] in bs.Values;
      }
      forall x | x in all ensures x in r {
        assert exists b :: b in books.Values && x == Load(b, authors, genres) by {
          if forall b :: b in books.Values ==> x != Load(b, authors, genres) { assert false; }
        }
        var b :| b in books.Values && x == Load(b, authors, genres);
        StoredBookIsKeyed(books, b);
        var i :| 0 <= i < |ids| && ids[i] == b.id;
        assert r[i] == x;
      }
    }

    /** The store keeps `book` under a fresh id: its own id when nonzero and
        unused, otherwise the next identity value. A book whose author or
        genre does not exist is refused. */
    method AddBook(book: Book) returns (r: Inserted)
      requires Valid()
      modifies this
      ensures Valid()
      ensures authors == old(authors) && genres == old(genres)
      ensures nextAuthorId == old(nextAuthorId) && nextGenreId == old(nextGenreId)
      ensures r == InsertFailed(DuplicateKey) <==> book.id != 0 && book.id in old(books)
      ensures r == InsertFailed(ForeignKeyViolation) <==>
                !(book.id != 0 && book.id in old(books)) && (book.authorId !in authors || book.genreId !in genres)
      ensures r.Inserted? <==>
                !(book.id != 0 && book.id in old(books)) && book.authorId in authors && book.genreId in genres
      ensures r.Inserted? ==> r.id != 0 && r.id !in old(books)
      ensures r.Inserted? ==> r.id == AssignedId(book.id, old(nextBookId))
      ensures books == if r.Inserted? then old(books)[r.id := book.(id := r.id)] else old(books)
      ensures nextBookId == if r.Inserted? then Advance(old(nextBookId), r.id) else old(nextBookId)
      ensures r.Inserted? ==>
                GetBookById(r.id) == Some(LoadedBook(book.(id := r.id), authors[book.authorId], genres[book.genreId]))
    {
      if book.id != 0 && book.id in books {
        return InsertFailed(DuplicateKey);
      }
      if book.authorId !in authors || book.genreId !in genres {
        return InsertFailed(ForeignKeyViolation);
      }
      var id := AssignedId(book.id, nextBookId);
      books := books[id := book.(id := id)];
      nextBookId := Advance(nextBookId, id);
      r := Inserted(id);
    }

    /** Replaces the whole stored row whose id is `book.id` by `book`. */
    method UpdateBook(book: Book) returns (r: Outcome)
      requires Valid()
      modifies this
      ensures Valid()
      ensures authors == old(authors) && genres == old(genres)
      ensures nextBookId == old(nextBookId) && nextAuthorId == old(nextAuthorId) && nextGenreId == old(nextGenreId)
      ensures r == Failed(MissingRow) <==> book.id !in old(books)
      ensures r == Failed(ForeignKeyViolation) <==>
                book.id in old(books) && (book.authorId !in authors || book.genreId !in genres)
      ensures r.Done? <==> book.id in old(books) && book.authorId in authors && book.genreId in genres
      ensures books == if r.Done? then old(books)[book.id := book] else old(books)
      ensures r.Done? ==>
                GetBookById(book.id) == Some(LoadedBook(book, authors[book.authorId], genres[book.genreId]))
    {
      if book.id !in books {
        return Failed(MissingRow);
      }
      if book.authorId !in authors || book.genreId !in genres {
        return Failed(ForeignKeyViolation);
      }
      books := books[book.id := book];
      r := Done;
    }

    /** Deletes the book whose id is `book.id`; nothing else changes. */
    method RemoveBook(book: Book) returns (r: Outcome)
      requires Valid()
      modifies this
      ensures Valid()
      ensures authors == old(authors) && genres == old(genres)
      ensures nextBookId == old(nextBookId) && nextAuthorId == old(nextAuthorId) && nextGenreId == old(nextGenreId)
      ensures r == Failed(MissingRow) <==> book.id !in old(books)
      ensures r.Done? <==> book.id in old(books)
      ensures books == old(books) - {book.id}
      ensures GetBookById(book.id) == None
    {
      if book.id !in books {
        r := Failed(MissingRow);
      } else {
        r := Done;
      }
      books := books - {book.id};
    }

    /** The books whose lower-cased title contains the lower-cased `title`. */
    method SearchByTitle(title: string) returns (r: seq<LoadedBook>)
      requires Valid()
      ensures Enumerates(r, Matching(books, authors, genres, Title, title))
      ensures |r| == |Matching(books, authors, genres, Title, title)|
    {
      r := SearchBy(Title, title);
    }

    /** The books whose author's lower-cased name contains the lower-cased `author`. */
    method SearchByAuthor(author: string) returns (r: seq<LoadedBook>)
      requires Valid()
      ensures Enumerates(r, Matching(books, authors, genres, AuthorName, author))
      ensures |r| == |Matching(books, authors, genres, AuthorName, author)|
    {
      r := SearchBy(AuthorName, author);
    }

    /** The books whose genre's lower-cased name contains the lower-cased `genre`. */
    method SearchByGenre(genre: string) returns (r: seq<LoadedBook>)
      requires Valid()
      ensures Enumerates(r, Matching(books, authors, genres, GenreName, genre))
      ensures |r| == |Matching(books, authors, genres, GenreName, genre)|
    {
      r := SearchBy(GenreName, genre);
    }

    /** Every loaded book, filtered by `field` containing `query` ignoring case. */
    method SearchBy(field: BookField, query: string) returns (r: seq<LoadedBook>)
      requires Valid()
      ensures Enumerates(r, Matching(books, authors, genres, field, query))
      ensures |r| == |Matching(books, authors, genres, field, query)|
    {
      var all := GetBooks();
      r := Where(all, field, query);
      EnumeratesSize(r, Matching(books, authors, genres, field, query));
    }

    // -------------------------------------------------------------------
    // Author repository

    /** The author whose id is `id` with every book referencing it, or None
        when no author has that id. */
    function GetAuthorById(id: int): (r: Option<LoadedAuthor>)
      reads this
      requires Valid()
      ensures r.Some? <==> exists a :: a in authors.Values && a.id == id
      ensures r.Some? ==> r.value.author in authors.Values && r.value.author.id == id
      ensures r.Some? ==> forall b :: b in r.value.books <==> b in books.Values && b.authorId == id
    {
      if id in authors then
        Some(LoadedAuthor(authors[id], BooksOfAuthor(books, id)))
      else
        NoAuthorHasId(id);
        None
    }

    lemma NoAuthorHasId(id: int)
      requires Valid() && id !in authors
      ensures forall a :: a in authors.Values ==> a.id != id
    {
      forall a | a in authors.Values ensures a.id != id {
        StoredAuthorIsKeyed(authors, a);
      }
    }

    /** Every stored author, each once, with its books; an author no book
        references comes with no books. */
    method GetAuthors() returns (r: seq<LoadedAuthor>)
      requires Valid()
      ensures Enumerates(r, AllLoadedAuthors(books, authors))
      ensures |r| == |authors|
      ensures forall i :: 0 <= i < |r| ==>
                (r[i].author in authors.Values &&
                 forall b :: b in r[i].books <==> b in books.Values && b.authorId == r[i].author.id)
    {
      var ids := RowIds(authors);
      var bs, aus := books, authors;
      r := seq(|ids|, i requires 0 <= i < |ids| && ids[i] in aus =>
                 LoadedAuthor(aus[ids[i]], BooksOfAuthor(bs, ids[i])));
      var all := AllLoadedAuthors(books, authors);
      forall i, j | 0 <= i < j < |r| ensures r[i] != r[j] {
        assert ids[i] != ids[j];
      }
      forall x | x in r ensures x in all {
        var i :| 0 <= i < |r| && r[i] == x;
        assert aus[ids[i]] in aus.Values;
      }
      forall x | x in all ensures x in r {
        assert exists a :: a in authors.Values && x == LoadedAuthor(a, BooksOfAuthor(books, a.id)) by {
          if forall a :: a in authors.Values ==> x != LoadedAuthor(a, BooksOfAuthor(books, a.id)) {
            assert false;
          }
        }
        var a :| a in authors.Values && x == LoadedAuthor(a, BooksOfAuthor(books, a.id));
        StoredAuthorIsKeyed(authors, a);
        var i :| 0 <= i < |ids| && ids[i] == a.id;
        assert r[i] == x;
      }
    }

    /** The store keeps `author` under a fresh id; the new author has no books. */
    method AddAuthor(author: Author) returns (r: Inserted)
      requires Valid()
      modifies this
      ensures Valid()
      ensures books == old(books) && genres == old(genres)
      ensures nextBookId == old(nextBookId) && nextGenreId == old(nextGenreId)
      ensures r == InsertFailed(DuplicateKey) <==> author.id != 0 && author.id in old(authors)
      ensures r.Inserted? <==> !(author.id != 0 && author.id in old(authors))
      ensures r.Inserted? ==> r.id != 0 && r.id !in old(authors)
      ensures r.Inserted? ==> r.id == AssignedId(author.id, old(nextAuthorId))
      ensures authors == if r.Inserted? then old(authors)[r.id := author.(id := r.id)] else old(authors)
      ensures nextAuthorId == if r.Inserted? then Advance(old(nextAuthorId), r.id) else old(nextAuthorId)
      ensures r.Inserted? ==> GetAuthorById(r.id) == Some(LoadedAuthor(author.(id := r.id), {}))
    {
      if author.id != 0 && author.id in authors {
        return InsertFailed(DuplicateKey);
      }
      var id := AssignedId(author.id, nextAuthorId);
      assert BooksOfAuthor(books, id) <= {};
      assert BooksOfAuthor(books, id) == {};
      authors := authors[id := author.(id := id)];
      nextAuthorId := Advance(nextAuthorId, id);
      r := Inserted(id);
    }

    /** Replaces the name of the stored author whose id is `author.id`. */
    method UpdateAuthor(author: Author) returns (r: Outcome)
      requires Valid()
      modifies this
      ensures Valid()
      ensures books == old(books) && genres == old(genres)
      ensures nextBookId == old(nextBookId) && nextAuthorId == old(nextAuthorId) && nextGenreId == old(nextGenreId)
      ensures r == Failed(MissingRow) <==> author.id !in old(authors)
      ensures r.Done? <==> author.id in old(authors)
      ensures authors == if r.Done? then old(authors)[author.id := author] else old(authors)
      ensures r.Done? ==> GetAuthorById(author.id) == Some(LoadedAuthor(author, BooksOfAuthor(books, author.id)))
    {
      if author.id !in authors {
        return Failed(MissingRow);
      }
      authors := authors[author.id := author];
      r := Done;
    }

    /** Deletes the author whose id is `author.id`, together with every book
        referencing it (cascade, an assumption of this model). */
    method RemoveAuthor(author: Author) returns (r: Outcome)
      requires Valid()
      modifies this
      ensures Valid()
      ensures genres == old(genres)
      ensures nextBookId == old(nextBookId) && nextAuthorId == old(nextAuthorId) && nextGenreId == old(nextGenreId)
      ensures r == Failed(MissingRow) <==> author.id !in old(authors)
      ensures r.Done? <==> author.id in old(authors)
      ensures authors == old(authors) - {author.id}
      ensures books == if r.Done? then WithoutAuthor(old(books), author.id) else old(books)
      ensures GetAuthorById(author.id) == None
    {
      if author.id !in authors {
        return Failed(MissingRow);
      }
      books := WithoutAuthor(books, author.id);
      authors := authors - {author.id};
      r := Done;
    }

    // -------------------------------------------------------------------
    // Genre repository

    /** The genre whose id is `id` with every book referencing it, or None
        when no genre has that id. */
    function GetGenreById(id: int): (r: Option<LoadedGenre>)
      reads this
      requires Valid()
      ensures r.Some? <==> exists g :: g in genres.Values && g.id == id
      ensures r.Some? ==> r.value.genre in genres.Values && r.value.genre.id == id
      ensures r.Some? ==> forall b :: b in r.value.books <==> b in books.Values && b.genreId == id
    {
      if id in genres then
        Some(LoadedGenre(genres[id], BooksOfGenre(books, id)))
      else
        NoGenreHasId(id);
        None
    }

    lemma NoGenreHasId(id: int)
      requires Valid() && id !in genres
      ensures forall g :: g in genres.Values ==> g.id != id
    {
      forall g | g in genres.Values ensures g.id != id {
        StoredGenreIsKeyed(genres, g);
      }
    }

    /** Every stored genre, each once, with its books; a genre no book
        references comes with no books. */
    method GetGenres() returns (r: seq<LoadedGenre>)
      requires Valid()
      ensures Enumerates(r, AllLoadedGenres(books, genres))
      ensures |r| == |genres|
      ensures forall i :: 0 <= i < |r| ==>
                (r[i].genre in genres.Values &&
                 forall b :: b in r[i].books <==> b in books.Values && b.genreId == r[i].genre.id)
    {
      var ids := RowIds(genres);
      var bs, gs := books, genres;
      r := seq(|ids|, i requires 0 <= i < |ids| && ids[i] in gs =>
                 LoadedGenre(gs[ids[i]], BooksOfGenre(bs, ids[i])));
      var all := AllLoadedGenres(books, genres);
      forall i, j | 0 <= i < j < |r| ensures r[i] != r[j] {
        assert ids[i] != ids[j];
      }
      forall x | x in r ensures x in all {
        var i :| 0 <= i < |r| && r[i] == x;
        assert gs[ids[i]] in gs.Values;
      }
      forall x | x in all ensures x in r {
        assert exists g :: g in genres.Values && x == LoadedGenre(g, BooksOfGenre(books, g.id)) by {
          if forall g :: g in genres.Values ==> x != LoadedGenre(g, BooksOfGenre(books, g.id)) {
            assert false;
          }
        }
        var g :| g in genres.Values && x == LoadedGenre(g, BooksOfGenre(books, g.id));
        StoredGenreIsKeyed(genres, g);
        var i :| 0 <= i < |ids| && ids[i] == g.id;
        assert r[i] == x;
      }
    }

    /** The store keeps `genre` under a fresh id; the new genre has no books. */
    method AddGenre(genre: Genre) returns (r: Inserted)
      requires Valid()
      modifies this
      ensures Valid()
      ensures books == old(books) && authors == old(authors)
      ensures nextBookId == old(nextBookId) && nextAuthorId == old(nextAuthorId)
      ensures r == InsertFailed(DuplicateKey) <==> genre.id != 0 && genre.id in old(genres)
      ensures r.Inserted? <==> !(genre.id != 0 && genre.id in old(genres))
      ensures r.Inserted? ==> r.id != 0 && r.id !in old(genres)
      ensures r.Inserted? ==> r.id == AssignedId(genre.id, old(nextGenreId))
      ensures genres == if r.Inserted? then old(genres)[r.id := genre.(id := r.id)] else old(genres)
      ensures nextGenreId == if r.Inserted? then Advance(old(nextGenreId), r.id) else old(nextGenreId)
      ensures r.Inserted? ==> GetGenreById(r.id) == Some(LoadedGenre(genre.(id := r.id), {}))
    {
      if genre.id != 0 && genre.id in genres {
        return InsertFailed(DuplicateKey);
      }
      var id := AssignedId(genre.id, nextGenreId);
      assert BooksOfGenre(books, id) <= {};
      assert BooksOfGenre(books, id) == {};
      genres := genres[id := genre.(id := id)];
      nextGenreId := Advance(nextGenreId, id);
      r := Inserted(id);
    }

    /** Replaces the name of the stored genre whose id is `genre.id`. */
    method UpdateGenre(genre: Genre) returns (r: Outcome)
      requires Valid()
      modifies this
      ensures Valid()
      ensures books == old(books) && authors == old(authors)
      ensures nextBookId == old(nextBookId) && nextAuthorId == old(nextAuthorId) && nextGenreId == old(nextGenreId)
      ensures r == Failed(MissingRow) <==> genre.id !in old(genres)
      ensures r.Done? <==> genre.id in old(genres)
      ensures genres == if r.Done? then old(genres)[genre.id := genre] else old(genres)
      ensures r.Done? ==> GetGenreById(genre.id) == Some(LoadedGenre(genre, BooksOfGenre(books, genre.id)))
    {
      if genre.id !in genres {
        return Failed(MissingRow);
      }
      genres := genres[genre.id := genre];
      r := Done;
    }

    /** Deletes the genre whose id is `genre.id` together with every book
        referencing it (cascade on delete), so no book is left orphaned. */
    method RemoveGenre(genre: Genre) returns (r: Outcome)
      requires Valid()
      modifies this
      ensures Valid()
      ensures authors == old(authors)
      ensures nextBookId == old(nextBookId) && nextAuthorId == old(nextAuthorId) && nextGenreId == old(nextGenreId)
      ensures r == Failed(MissingRow) <==> genre.id !in old(genres)
      ensures r.Done? <==> genre.id in old(genres)
      ensures genres == old(genres) - {genre.id}
      ensures books == if r.Done? then WithoutGenre(old(books), genre.id) else old(books)
      ensures GetGenreById(genre.id) == None
      ensures forall b :: b in books.Values ==> b.genreId != genre.id
      ensures r.Done? ==> |books| == |old(books)| - |BooksOfGenre(old(books), genre.id)|
    {
      if genre.id !in genres {
        NoBookInGenre(genre.id);
        return Failed(MissingRow);
      }
      RemoveGenreKeepsIntegrity(books, authors, genres, genre.id);
      RemoveGenreRemovesItsBooks(books, genre.id);
      books := WithoutGenre(books, genre.id);
      genres := genres - {genre.id};
      r := Done;
    }

    lemma NoBookInGenre(genreId: int)
      requires Valid() && genreId !in genres
      ensures forall b :: b in books.Values ==> b.genreId != genreId
    {
    }
  }
}
