/** The command logic of `BookManagerGUI`: the displayed list, the add / delete /
    toggle-favourite / search / refresh handlers, and the rendering of list lines.
    Widgets are replaced by their contents: the text of a field, the selected index. */
module Gui {
  import Books
  import opened Wrappers
  import opened Seqs
  import opened Text
  import Store
  import Pipeline

  /** The store behind the window and the books currently displayed (`currentBooks`). */
  datatype Gui = Gui(store: Store.Table, current: seq<Books.Book>)

  /** The result of a handler: the new state and the message dialog it shows, if any. */
  datatype Response = Response(gui: Gui, dialog: Option<string>)

  const TitleAuthorRequired: string := "Title and Author are required."
  const SelectBookToDelete: string := "Please select a book to delete."
  const SelectBookToMark: string := "Please select a book to mark/unmark as favorite."

  /** Every displayed book is the current stored row for its id. */
  predicate Consistent(g: Gui)
  {
    Store.Valid(g.store) &&
    forall b :: b in g.current ==> b.id in g.store.rows && b == Store.AsBook(b.id, g.store.rows[b.id])
  }

  /** `refreshBookList`: display the full listing; the current filter is not applied. */
  function Refresh(g: Gui): (r: Gui)
    requires Store.Valid(g.store)
    ensures Consistent(r) && r.store == g.store
    ensures forall id :: id in g.store.rows ==> Store.AsBook(id, g.store.rows[id]) in r.current
    ensures |r.current| == |g.store.rows| && Store.Ascending(r.current)
  {
    Store.GetAllBooksCount(g.store);
    Gui(g.store, Store.GetAllBooks(g.store))
  }

  /** The window as constructed: it ends by refreshing the list. */
  function Open(store: Store.Table): (g: Gui)
    requires Store.Valid(store)
    ensures Consistent(g) && g.store == store && |g.current| == |store.rows|
    ensures forall id :: id in store.rows ==> Store.AsBook(id, store.rows[id]) in g.current
  {
    Store.GetAllBooksCount(store);
    Refresh(Gui(store, []))
  }

  /** The add handler: trim title and author; store the book only if both are non-empty. */
  function AddBook(g: Gui, titleText: string, authorText: string, genre: string): (r: Response)
    requires Store.Valid(g.store)
    ensures var accepted := Trim(titleText) != [] && Trim(authorText) != [];
            && (accepted ==> r.dialog == None
                             && r.gui.store == Store.AddBook(g.store, Books.NewBook(Trim(titleText), Trim(authorText), genre))
                             && Consistent(r.gui) && r.gui.current == Store.GetAllBooks(r.gui.store))
            && (!accepted ==> r.gui == g && r.dialog == Some(TitleAuthorRequired))
  {
    var title := Trim(titleText);
    var author := Trim(authorText);
    if title != [] && author != [] then
      Response(Refresh(Gui(Store.AddBook(g.store, Books.NewBook(title, author, genre)), g.current)), None)
    else
      Response(g, Some(TitleAuthorRequired))
  }

  /** An accepted add shows the old listing followed by the new, non-favourite book
      under a fresh id, with trimmed title and author. */
  lemma AddBookAppends(g: Gui, titleText: string, authorText: string, genre: string)
    requires Store.Valid(g.store)
    requires Trim(titleText) != [] && Trim(authorText) != []
    ensures AddBook(g, titleText, authorText, genre).gui.current
            == Store.GetAllBooks(g.store) + [Books.Book(g.store.next, Trim(titleText), Trim(authorText), genre, false)]
    ensures g.store.next !in g.store.rows
  {
    Store.AddThenList(g.store, Books.NewBook(Trim(titleText), Trim(authorText), genre));
  }

  /** The delete handler. A selection index is -1 (nothing selected) or a displayed row. */
  function DeleteSelected(g: Gui, index: int): (r: Response)
    requires Store.Valid(g.store) && index < |g.current|
    ensures index < 0 ==> r.gui == g && r.dialog == Some(SelectBookToDelete)
    ensures index >= 0 ==> r.dialog == None && Consistent(r.gui)
                           && r.gui.store == Store.DeleteBook(g.store, g.current[index].id)
                           && r.gui.current == Store.GetAllBooks(r.gui.store)
  {
    if index >= 0 then
      Response(Refresh(Gui(Store.DeleteBook(g.store, g.current[index].id), g.current)), None)
    else
      Response(g, Some(SelectBookToDelete))
  }

  /** After deleting the selected book, the display is the old listing without its id. */
  lemma DeleteSelectedRemovesBook(g: Gui, index: int)
    requires Store.Valid(g.store) && 0 <= index < |g.current|
    ensures var id := g.current[index].id;
            var shown := DeleteSelected(g, index).gui.current;
            shown == Filter(Store.GetAllBooks(g.store), Store.OtherThan(id))
            && forall b :: b in shown ==> b.id != id
  {
    Store.DeleteThenList(g.store, g.current[index].id);
  }

  /** The mark/unmark handler: write the negation of the selected book's flag. */
  function ToggleFavorite(g: Gui, index: int): (r: Response)
    requires Store.Valid(g.store) && index < |g.current|
    ensures index < 0 ==> r.gui == g && r.dialog == Some(SelectBookToMark)
    ensures index >= 0 ==> r.dialog == None && Consistent(r.gui)
                           && r.gui.store == Store.SetFavorite(g.store, g.current[index].id, !g.current[index].favorite)
                           && r.gui.current == Store.GetAllBooks(r.gui.store)
  {
    if index >= 0 then
      var b := g.current[index];
      Response(Refresh(Gui(Store.SetFavorite(g.store, b.id, !b.favorite), g.current)), None)
    else
      Response(g, Some(SelectBookToMark))
  }

  /** When the display is consistent with the store, toggling shows the selected book
      again with its flag flipped and nothing else about it changed. */
  lemma ToggleFavoriteFlips(g: Gui, index: int)
    requires Consistent(g) && 0 <= index < |g.current|
    ensures var b := g.current[index];
            Books.SetFavorite(b, !b.favorite) in ToggleFavorite(g, index).gui.current
  {
    var b := g.current[index];
    assert b in g.current;
  }

  /** After a toggle the display is the old listing, in the same order, with only the
      selected book's flag flipped. */
  lemma ToggleThenList(g: Gui, index: int)
    requires Store.Valid(g.store) && 0 <= index < |g.current|
    ensures var b := g.current[index];
            ToggleFavorite(g, index).gui.current
            == Map(Store.GetAllBooks(g.store), Store.MarkIf(b.id, !b.favorite))
  {
    var b := g.current[index];
    Store.SetFavoriteThenList(g.store, b.id, !b.favorite);
  }

  /** The search handler: display the filtered listing; the store is not touched. */
  function Search(g: Gui, keyword: string, selectedGenre: string, onlyFavorites: bool): (r: Gui)
    requires Store.Valid(g.store)
    ensures r.store == g.store && Consistent(r)
    ensures IsSubsequence(r.current, Store.GetAllBooks(g.store))
    ensures forall b :: b in r.current <==>
              b in Store.GetAllBooks(g.store) && Pipeline.Shown(keyword, selectedGenre, onlyFavorites, b)
  {
    Gui(g.store, Pipeline.FilterBooks(Store.GetAllBooks(g.store), keyword, selectedGenre, onlyFavorites))
  }

  /** Every handler that refreshes discards the filter: after a search, a refresh
      displays the full listing again. */
  lemma RefreshDropsFilter(g: Gui, keyword: string, selectedGenre: string, onlyFavorites: bool)
    requires Store.Valid(g.store)
    ensures Refresh(Search(g, keyword, selectedGenre, onlyFavorites)).current == Store.GetAllBooks(g.store)
  {
  }

  /** The star put in front of a favourite's title. */
  const Star: string := "\U{2B50} "

  /** One list line, for the book at 1-based position `n`. It ends with the genre in
      parentheses, and a favourite's line has the star right after the number. */
  function Line(n: nat, b: Books.Book): (line: string)
    ensures |line| >= |b.genre| + 3 && line[|line| - |b.genre| - 3..] == " (" + b.genre + ")"
    ensures var at := |NatToString(n)| + 2;
            b.favorite ==> |line| >= at + |Star| && line[at..at + |Star|] == Star
  {
    NatToString(n) + ". " + (if b.favorite then Star + b.title else b.title)
      + " by " + b.author + " (" + b.genre + ")"
  }

  /** `updateBookListDisplay`: one line per displayed book, numbered from 1. */
  method UpdateBookListDisplay(books: seq<Books.Book>) returns (lines: seq<string>)
    ensures |lines| == |books|
    ensures forall i :: 0 <= i < |books| ==> lines[i] == Line(i + 1, books[i])
  {
    lines := [];
    var i := 0;
    while i < |books|
      invariant 0 <= i <= |books|
      invariant |lines| == i
      invariant forall j :: 0 <= j < i ==> lines[j] == Line(j + 1, books[j])
    {
      lines := lines + [Line(i + 1, books[i])];
      i := i + 1;
    }
  }

  /** A line starts with its position, a full stop and a space. */
  lemma LineStartsWithNumber(n: nat, b: Books.Book)
    ensures var prefix := NatToString(n) + ". ";
            |prefix| <= |Line(n, b)| && Line(n, b)[..|prefix|] == prefix
  {
    var prefix := NatToString(n) + ". ";
    var rest := (if b.favorite then Star + b.title else b.title) + " by " + b.author + " (" + b.genre + ")";
    assert Line(n, b) == prefix + rest;
  }

  /** Lines at different positions differ, even for equal books: the number before the
      first full stop identifies the position. */
  lemma LinesDistinct(m: nat, n: nat, a: Books.Book, b: Books.Book)
    requires m != n
    ensures Line(m, a) != Line(n, b)
  {
    var dm := NatToString(m);
    var dn := NatToString(n);
    LineStartsWithNumber(m, a);
    LineStartsWithNumber(n, b);
    if |dm| < |dn| {
      NumberPrefixesDiffer(dm, dn, Line(m, a), Line(n, b));
    } else if |dn| < |dm| {
      NumberPrefixesDiffer(dn, dm, Line(n, b), Line(m, a));
    } else if Line(m, a) == Line(n, b) {
      assert dm == Line(m, a)[..|dm + ". "|][..|dm|];
      assert dn == Line(n, b)[..|dn + ". "|][..|dn|];
      NatToStringInjective(m, n);
    }
  }

  /** A shorter digit string followed by ". " cannot begin the same text as a longer one. */
  lemma NumberPrefixesDiffer(short: string, long: string, x: string, y: string)
    requires IsDigits(long) && |short| < |long|
    requires |short + ". "| <= |x| && x[..|short + ". "|] == short + ". "
    requires |long + ". "| <= |y| && y[..|long + ". "|] == long + ". "
    ensures x != y
  {
    assert x[|short|] == (short + ". ")[|short|] == '.';
    assert y[|short|] == (long + ". ")[|short|] == long[|short|];
  }
}
