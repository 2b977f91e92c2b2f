/** The book record: five fields, two constructors, one setter per field. */
module Books {

  /** A book. The datatype constructor is the five-argument constructor, which stores
      every argument as given; the field names are the getters. */
  datatype Book = Book(id: int, title: string, author: string, genre: string, favorite: bool)

  /** The id a book carries before the store has assigned one. */
  const Unsaved: int := -1

  /** The three-argument constructor, used for books about to be registered. */
  function NewBook(title: string, author: string, genre: string): (b: Book)
    ensures b.id == Unsaved && !b.favorite
    ensures b.title == title && b.author == author && b.genre == genre
  {
    Book(Unsaved, title, author, genre, false)
  }

  /** The five-argument constructor validates and normalises nothing. */
  lemma ConstructorKeepsArguments(id: int, title: string, author: string, genre: string, favorite: bool)
    ensures var b := Book(id, title, author, genre, favorite);
            b.id == id && b.title == title && b.author == author && b.genre == genre && b.favorite == favorite
  {
  }

  function SetId(b: Book, id: int): (r: Book)
    ensures r.id == id
    ensures r.title == b.title && r.author == b.author && r.genre == b.genre && r.favorite == b.favorite
  {
    b.(id := id)
  }

  function SetTitle(b: Book, title: string): (r: Book)
    ensures r.title == title
    ensures r.id == b.id && r.author == b.author && r.genre == b.genre && r.favorite == b.favorite
  {
    b.(title := title)
  }

  function SetAuthor(b: Book, author: string): (r: Book)
    ensures r.author == author
    ensures r.id == b.id && r.title == b.title && r.genre == b.genre && r.favorite == b.favorite
  {
    b.(author := author)
  }

  function SetGenre(b: Book, genre: string): (r: Book)
    ensures r.genre == genre
    ensures r.id == b.id && r.title == b.title && r.author == b.author && r.favorite == b.favorite
  {
    b.(genre := genre)
  }

  function SetFavorite(b: Book, favorite: bool): (r: Book)
    ensures r.favorite == favorite
    ensures r.id == b.id && r.title == b.title && r.author == b.author && r.genre == b.genre
  {
    b.(favorite := favorite)
  }

  /** Setting the flag twice to the same value is setting it once; setting it to its
      current value changes nothing. */
  lemma SetFavoriteIdempotent(b: Book, v: bool)
    ensures SetFavorite(SetFavorite(b, v), v) == SetFavorite(b, v)
    ensures SetFavorite(b, b.favorite) == b
  {
  }

  /** Setters of different fields do not interfere: applying them in either order
      gives the same book. */
  lemma SettersCommute(b: Book, id: int, t: string, a: string, g: string, v: bool)
    ensures SetId(SetTitle(b, t), id) == SetTitle(SetId(b, id), t)
    ensures SetId(SetAuthor(b, a), id) == SetAuthor(SetId(b, id), a)
    ensures SetId(SetGenre(b, g), id) == SetGenre(SetId(b, id), g)
    ensures SetId(SetFavorite(b, v), id) == SetFavorite(SetId(b, id), v)
    ensures SetTitle(SetAuthor(b, a), t) == SetAuthor(SetTitle(b, t), a)
    ensures SetTitle(SetGenre(b, g), t) == SetGenre(SetTitle(b, t), g)
    ensures SetTitle(SetFavorite(b, v), t) == SetFavorite(SetTitle(b, t), v)
    ensures SetAuthor(SetGenre(b, g), a) == SetGenre(SetAuthor(b, a), g)
    ensures SetAuthor(SetFavorite(b, v), a) == SetFavorite(SetAuthor(b, a), v)
    ensures SetGenre(SetFavorite(b, v), g) == SetFavorite(SetGenre(b, g), v)
  {
  }
}
