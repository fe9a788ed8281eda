/** Client code that uses only the repository contracts: what a caller can
    conclude about the store from a sequence of calls, on the catalog of
    one book, "The Shining" by Stephen King, in the genre "Horror". */
module Scenarios {
  import opened Text
  import opened Catalog
  import opened Persistence

  const King := Author(1, "Stephen King")
  const Horror := Genre(1, "Horror")
  const Shining := Book(1, "The Shining", 10.99, 5, 1, 1)

  /** The store holding exactly the one book, its author and its genre. */
  predicate HoldsShining(db: BooksDbContext)
    reads db
  {
    db.books == map[1 := Shining] && db.authors == map[1 := King] && db.genres == map[1 := Horror]
  }

  /** Adding the author, the genre and the book to an empty store assigns
      each the first identity value, and the book reads back with its author
      and genre. */
  method AddShining() returns (db: BooksDbContext)
    ensures db.Valid() && HoldsShining(db)
  {
    db := new BooksDbContext();
    var a := db.AddAuthor(Author(0, "Stephen King"));
    var g := db.AddGenre(Genre(0, "Horror"));
    assert a == Inserted(1) && g == Inserted(1);
    var b := db.AddBook(Shining.(id := 0));
    assert b == Inserted(1);
    var found := db.GetBookById(1);
    assert found == Some(LoadedBook(Shining, King, Horror));
    assert found.value.author.name == "Stephen King" && found.value.genre.name == "Horror";
  }

  /** In the one-book store, loading every row gives exactly the one book
      with its author and genre. */
  lemma OnlyShiningLoads()
    ensures ForeignKeysHold(map[1 := Shining], map[1 := King], map[1 := Horror])
    ensures AllLoadedBooks(map[1 := Shining], map[1 := King], map[1 := Horror])
         == {LoadedBook(Shining, King, Horror)}
  {
    var loaded := LoadedBook(Shining, King, Horror);
    var books := map[1 := Shining];
    var all := AllLoadedBooks(books, map[1 := King], map[1 := Horror]);
    assert books[1] == Shining;
    assert books.Values <= {Shining} && {Shining} <= books.Values;
    assert all <= {loaded} && {loaded} <= all;
  }

  /** When loading gives exactly one book and that book matches, the search
      selects exactly that book. */
  lemma SoleMatch(books: map<int, Book>, authors: map<int, Author>, genres: map<int, Genre>,
                  field: BookField, query: string, lb: LoadedBook)
    requires ForeignKeysHold(books, authors, genres)
    requires AllLoadedBooks(books, authors, genres) == {lb}
    requires Matches(lb, field, query)
    ensures Matching(books, authors, genres, field, query) == {lb}
  {
    var hits := Matching(books, authors, genres, field, query);
    assert hits <= {lb} && {lb} <= hits;
  }

  /** In the one-book store, the author-name search for "king" selects the
      one book. */
  lemma KingSelectsShining()
    ensures Matching(map[1 := Shining], map[1 := King], map[1 := Horror], AuthorName, "king")
         == {LoadedBook(Shining, King, Horror)}
  {
    OnlyShiningLoads();
    var loaded := LoadedBook(Shining, King, Horror);
    assert Matches(loaded, AuthorName, "king") by {
      KingMatchesAuthorName();
      assert FieldOf(loaded, AuthorName) == "Stephen King";
    }
    SoleMatch(map[1 := Shining], map[1 := King], map[1 := Horror], AuthorName, "king", loaded);
  }

  /** Searching the author names for "king" finds exactly the one book. */
  method SearchKing(db: BooksDbContext) returns (hits: seq<LoadedBook>)
    requires db.Valid() && HoldsShining(db)
    ensures hits == [LoadedBook(Shining, King, Horror)]
  {
    KingSelectsShining();
    hits := db.SearchByAuthor("king");
    assert |hits| == 1 && hits[0] == LoadedBook(Shining, King, Horror);
  }

  /** Updating the price replaces the whole row: the new price reads back
      and the title, author and genre stay as supplied. */
  method UpdatePrice(db: BooksDbContext)
    requires db.Valid() && HoldsShining(db)
    modifies db
    ensures db.Valid()
    ensures db.GetBookById(1) == Some(LoadedBook(Shining.(price := 8.99), King, Horror))
  {
    var u := db.UpdateBook(Shining.(price := 8.99));
    assert u == Done;
    var found := db.GetBookById(1);
    assert found.value.book.price == 8.99 && found.value.book.title == "The Shining";
    assert found.value.author == King;
  }

  /** Deleting the genre deletes the book that references it. */
  method RemoveHorror(db: BooksDbContext)
    requires db.Valid() && HoldsShining(db)
    modifies db
    ensures db.Valid()
    ensures db.books == map[] && db.genres == map[] && db.authors == map[1 := King]
    ensures db.GetBookById(1) == None
  {
    var removed := db.RemoveGenre(Horror);
    assert removed == Done;
    assert db.GetBookById(1) == None;
    assert db.books == map[];
  }
}
