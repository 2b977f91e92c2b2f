# Book catalogue: a Dafny model

This project models the logic of a small desktop book catalogue written in Java
(Swing for the window, SQLite through JDBC for storage). A book has an id, a title,
an author, a genre and a favourite flag. The catalogue can add, delete, search and
star books, and it keeps a separately edited list of genre names.

The model is a set of pure functions over immutable values:

- `Books`: the `Book` record, its two constructors and its one-field setters.
- `Store`: the `books` table as SQL semantics. It is a map from id to row plus the
  AUTOINCREMENT counter. It covers `addBook`, `getAllBooks`, `deleteBook`, `setFavorite`
  and `searchBooks`. Listing order is ascending id.
- `Like`: SQLite's `LIKE` with its defaults. `%` and `_` are wildcards, there is no
  escape character, and letters are compared case-insensitively in ASCII only. The
  model proves that `'%' || k || '%'` is a plain case-insensitive substring test
  when `k` has no wildcards.
- `Pipeline`: the window's in-memory filter, with three stages: keyword, genre
  (`"-"` means all genres) and favourites-only.
- `Gui`: the window's handlers for add, delete, mark/unmark, search and refresh, over
  a state made of the store and the displayed list. It also covers the rendering of
  list lines.
- `TableModel`: the editable four-column table. Each cell edit that does not throw
  makes one `dao.updateBook(book)` call, and the model records that call in a log.
- `Genres`: the Add, Delete and Save actions of the genre dialog.
- `Text`, `Seqs`, `Wrappers`: helpers. `Text` covers Java's `trim`, an ASCII
  `toLowerCase`, `contains` and decimal rendering. `Seqs` covers order-preserving
  filters and subsequences. `Wrappers` holds `Option` and `Result`.

Inputs the program takes from widgets become parameters: field texts, the selected
index, the combo-box choice and the check box. The genre input dialog's answer is an
`Option<string>`, with `None` for a cancelled dialog. A message dialog becomes the
text it would show.

Behaviour to note:

- The store does no validation. The title/author check lives only in the window's
  add handler.
- The store has no update operation.
- Refreshing shows the full listing; it does not re-apply the filter.
- Storage errors are printed and swallowed. They are not reported to the caller.
- A table edit that throws has no rollback: the exception is raised before the field
  is changed.

## Model

| member | source | states |
|---|---|---|
| Books.NewBook | src/main/java/com/example/Book.java:37-39 | the three-argument constructor gives id -1, not favourite, and the given title, author and genre |
| Books.ConstructorKeepsArguments | src/main/java/com/example/Book.java:22-28 | the five-argument constructor's getters return exactly the arguments; nothing is validated or normalised |
| Books.SetId | src/main/java/com/example/Book.java:71-73 | setId sets the id and leaves the other four fields unchanged |
| Books.SetTitle | src/main/java/com/example/Book.java:80-82 | setTitle changes only the title |
| Books.SetAuthor | src/main/java/com/example/Book.java:89-91 | setAuthor changes only the author |
| Books.SetGenre | src/main/java/com/example/Book.java:98-100 | setGenre changes only the genre |
| Books.SetFavorite | src/main/java/com/example/Book.java:107-109 | setFavorite sets the flag and changes nothing else |
| Books.SetFavoriteIdempotent | src/main/java/com/example/Book.java:107-109 | setting the flag twice to one value equals setting it once; setting it to its current value is a no-op |
| Books.SettersCommute | src/main/java/com/example/Book.java:71-109 | each of the ten pairs of setters of different fields (id, title, author, genre, favourite) commutes |
| Store.Empty | src/main/java/com/example/BookDAO.java:20-25 | a freshly created table has no rows and satisfies the id invariant |
| Store.FlagToInt | src/main/java/com/example/BookDAO.java:46 | the favourite column is written as 0 or 1, and it is 1 exactly when the flag is true |
| Store.AsBook | src/main/java/com/example/BookDAO.java:68-74 | a row is read back with its id and text fields unchanged, and favourite is true iff the stored integer is 1 |
| Store.RowOf | src/main/java/com/example/BookDAO.java:43-46 | the inserted row reads back as the argument book with only its id replaced |
| Store.AddBook | src/main/java/com/example/BookDAO.java:37-52 | insertion adds exactly one row under an id that is not in use and is above every id ever issued; its fields equal the argument's and the argument's id is ignored; the counter advances; other rows are unchanged |
| Store.AddThenList | src/main/java/com/example/BookDAO.java:37-52 | after addBook the listing is the old listing followed by the argument book under the fresh id |
| Store.AddAcceptsEmptyFields | src/main/java/com/example/BookDAO.java:37-52 | a book with empty title, author and genre is still stored and listed (no validation) |
| Store.GetAllBooks | src/main/java/com/example/BookDAO.java:59-83 | every listed book is a stored row read back faithfully, every stored row is listed, and ids strictly increase (no duplicates) |
| Store.RowsFrom | src/main/java/com/example/BookDAO.java:67-76 | the result-set loop yields books whose ids lie in the scanned range and strictly increase, so no id is read twice and there are no more rows than ids in the range |
| Store.RowsFromSound | src/main/java/com/example/BookDAO.java:67-76 | the rows produced from a given id onward are stored rows read back faithfully, in strictly ascending id order |
| Store.RowsFromComplete | src/main/java/com/example/BookDAO.java:67-76 | every stored row at or above the starting id is produced |
| Store.GetAllBooksCount | src/main/java/com/example/BookDAO.java:59-83 | the listing has exactly as many entries as the table has rows |
| Store.DeleteBook | src/main/java/com/example/BookDAO.java:90-102 | deleteBook removes that id's row and keeps all other rows and the counter; an absent id is a no-op |
| Store.DeleteThenList | src/main/java/com/example/BookDAO.java:90-102 | after deleteBook(id) the listing is the old listing without id, order kept |
| Store.DeleteIdempotent | src/main/java/com/example/BookDAO.java:90-102 | deleting twice equals deleting once |
| Store.SetFavorite | src/main/java/com/example/BookDAO.java:148-161 | setFavorite changes only the favourite of the matching row; an absent id is a no-op; keys and counter are unchanged |
| Store.SetFavoriteIdempotent | src/main/java/com/example/BookDAO.java:148-161 | applying setFavorite twice with the same arguments equals applying it once |
| Store.SetFavoriteThenList | src/main/java/com/example/BookDAO.java:148-161 | after setFavorite(id, v) the listing is the old one in the same order, with only the book with that id changed, and only in its flag |
| Store.SearchBooks | src/main/java/com/example/BookDAO.java:110-140 | the result is an order-preserving subsequence of the listing and holds exactly the listed books whose title, author or genre is LIKE `%k%` |
| Store.SearchIsSubstringMatch | src/main/java/com/example/BookDAO.java:112-117 | for a keyword without `%` or `_`, searchBooks returns exactly the listed books whose title, author or genre contains the keyword ignoring ASCII case |
| Store.SearchEmptyIsAll | src/main/java/com/example/BookDAO.java:112-117 | searchBooks("") returns the whole listing |
| Store.Run | src/main/java/com/example/BookDAO.java:37-161 | any sequence of add, delete and setFavorite calls keeps the id invariant |
| Store.RunIssuesFreshIds | src/main/java/com/example/BookDAO.java:21 | the AUTOINCREMENT counter never decreases, and every id a run adds is at or above the counter's value at the start |
| Store.DeletedIdNeverReturns | src/main/java/com/example/BookDAO.java:21 | after a stored id is deleted, no later sequence of calls brings that id back |
| Store.TwoInsertsOneFavorite | src/test/java/com/example/BookDAOTest.java:136-149 | two fresh inserts into a table with no rows, then starring the first listed book, leave exactly one favourite |
| Like.Like | src/main/java/com/example/BookDAO.java:112 | `LIKE` with a pattern that has no `%` matches only strings of the pattern's length |
| Like.InfixPattern | src/main/java/com/example/BookDAO.java:117 | the bound pattern is the keyword between two `%` |
| Like.InfixPatternIsContains | src/main/java/com/example/BookDAO.java:112-117 | without wildcards in k, `s LIKE '%k%'` holds iff lower-case s contains lower-case k |
| Like.PrefixPattern | src/main/java/com/example/BookDAO.java:112-117 | without wildcards in k, `s LIKE 'k%'` holds iff lower-case k is a prefix of lower-case s |
| Like.EmptyInfixMatchesAll | src/main/java/com/example/BookDAO.java:117 | the pattern `%%` for the empty keyword matches every string |
| Like.UnderscoreMatchesAnyNonEmpty | src/main/java/com/example/BookDAO.java:117 | the keyword `_` is a wildcard: it matches every non-empty field, so wildcard-free keywords are needed for substring semantics |
| Text.Trim | src/main/java/com/example/BookManagerGUI.java:105-106 | trim returns an infix that does not start or end with a character at or below U+0020, and everything removed around it is such a character |
| Text.TrimEmptyIffBlank | src/main/java/com/example/BookManagerGUI.java:109 | a trimmed string is empty iff every character of the input is at or below U+0020 |
| Text.TrimIdempotent | src/main/java/com/example/GenreManagerDialog.java:47-48 | trimming a trimmed string changes nothing |
| Text.Lower | src/main/java/com/example/BookManagerGUI.java:154 | toLowerCase keeps the length and folds each character on its own, A-Z to a-z and every other character unchanged |
| Text.LowerKeepsTrim | src/main/java/com/example/BookManagerGUI.java:154 | lower-casing the trimmed text gives the trimmed infix of the lower-cased text, still starting and ending with a non-blank character |
| Text.Contains | src/main/java/com/example/BookManagerGUI.java:159-161 | the empty string is contained in every string, and no string is contained in a shorter one |
| Text.ContainsIff | src/main/java/com/example/BookManagerGUI.java:159-161 | contains(s, k) holds iff k occurs in s at some position |
| Text.ParseNatToString | src/main/java/com/example/BookManagerGUI.java:186 | the decimal rendering of a row number reads back as that number |
| Seqs.Filter | src/main/java/com/example/BookManagerGUI.java:158-164 | a stream filter keeps exactly the elements that satisfy its predicate and is no longer than its input |
| Seqs.FilterIsSubsequence | src/main/java/com/example/BookManagerGUI.java:158-164 | a stream filter keeps the order of its input |
| Seqs.FilterMultiplicity | src/main/java/com/example/BookManagerGUI.java:158-164 | a stream filter keeps every occurrence of a selected element and none of the others |
| Seqs.FilterFuse | src/main/java/com/example/BookManagerGUI.java:158-164 | two filters in a row equal one filter by the conjunction |
| Seqs.FilterCommute | src/main/java/com/example/BookManagerGUI.java:158-164 | two filter stages may be swapped |
| Pipeline.GenreFilterChoices | src/main/java/com/example/BookManagerGUI.java:35-36 | the genre filter offers the sentinel "-" first, then the loaded genres in order |
| Pipeline.NormalizeKeyword | src/main/java/com/example/BookManagerGUI.java:154 | the matched keyword is lower case, does not start or end with a blank, and is an infix of the lower-cased raw text with only blanks around it (so it is `trim().toLowerCase()` of the input) |
| Pipeline.KeywordStage | src/main/java/com/example/BookManagerGUI.java:159-161 | an empty keyword passes every book, and a keyword passes only books with a field at least as long as it |
| Pipeline.GenreStage | src/main/java/com/example/BookManagerGUI.java:162 | "-" passes every book; any other choice passes exactly the books whose genre equals it |
| Pipeline.FavoriteStage | src/main/java/com/example/BookManagerGUI.java:163 | with favourites-only off every book passes, a favourite always passes, and with it on a non-favourite fails |
| Pipeline.FilterBooks | src/main/java/com/example/BookManagerGUI.java:153-167 | the displayed list is an order-preserving subsequence of the snapshot, and it holds exactly the books that pass keyword, genre and favourites |
| Pipeline.SinglePass | src/main/java/com/example/BookManagerGUI.java:158-164 | the three stages equal one filter by their conjunction |
| Pipeline.StagesCommute | src/main/java/com/example/BookManagerGUI.java:158-164 | each of the five other orders of the keyword, genre and favourites stages gives the same list as the order of searchBooks |
| Pipeline.SurroundingBlanksIgnored | src/main/java/com/example/BookManagerGUI.java:154 | blanks around the search text do not change the displayed list |
| Pipeline.FilterKeepsMultiplicity | src/main/java/com/example/BookManagerGUI.java:158-164 | a shown book appears as often as in the snapshot; a hidden one not at all |
| Pipeline.NoFilterShowsAll | src/main/java/com/example/BookManagerGUI.java:154-163 | a blank search text with "-" and favourites-only off shows the whole snapshot |
| Pipeline.GenreChoiceIsExact | src/main/java/com/example/BookManagerGUI.java:162 | a genre choice other than "-" shows only books whose genre equals it exactly |
| Pipeline.KeywordFilterMatchesStoreSearch | src/main/java/com/example/BookManagerGUI.java:159-161 | for a trimmed keyword without wildcards, the in-memory keyword filter returns the same list as the store's searchBooks |
| Pipeline.MysteryExample | src/main/java/com/example/BookManagerGUI.java:158-164 | keyword "mystery" over "The Mystery Code" (Mystery) and "Romance Story" (Romance) keeps only the first |
| Gui.Refresh | src/main/java/com/example/BookManagerGUI.java:172-175 | refreshing displays every stored row exactly once (as many lines as rows, ids strictly ascending), each consistent with the store, and leaves the store alone |
| Gui.Open | src/main/java/com/example/BookManagerGUI.java:98 | the new window displays the whole table: every stored row, read back faithfully, one line per row |
| Gui.AddBook | src/main/java/com/example/BookManagerGUI.java:104-120 | with a non-blank trimmed title and author, the handler stores a new book with the trimmed values and the display becomes the full refreshed listing; otherwise it changes nothing and shows "Title and Author are required." |
| Gui.AddBookAppends | src/main/java/com/example/BookManagerGUI.java:109-112 | an accepted add displays the old listing plus the new non-favourite book under a fresh id |
| Gui.DeleteSelected | src/main/java/com/example/BookManagerGUI.java:125-134 | with no selection nothing changes and a message is shown; otherwise the selected displayed book's id is deleted and the display becomes the full refreshed listing |
| Gui.DeleteSelectedRemovesBook | src/main/java/com/example/BookManagerGUI.java:127-130 | after a delete the display is the old listing without the selected id |
| Gui.ToggleFavorite | src/main/java/com/example/BookManagerGUI.java:139-148 | with no selection nothing changes and a message is shown; otherwise the store receives setFavorite(id, not favourite) and the display becomes the full refreshed listing |
| Gui.ToggleFavoriteFlips | src/main/java/com/example/BookManagerGUI.java:141-144 | after a toggle the selected book is displayed with its flag flipped and its other fields unchanged |
| Gui.ToggleThenList | src/main/java/com/example/BookManagerGUI.java:141-144 | after a toggle the display is the old listing in the same order, with only the selected book's flag flipped |
| Gui.Search | src/main/java/com/example/BookManagerGUI.java:153-167 | searching leaves the store unchanged and displays an order-preserving subsequence of the listing holding exactly the books that pass the filter |
| Gui.RefreshDropsFilter | src/main/java/com/example/BookManagerGUI.java:172-175 | a refresh after a search displays the full unfiltered listing |
| Gui.UpdateBookListDisplay | src/main/java/com/example/BookManagerGUI.java:181-188 | one line per displayed book; line i is "(i+1). ", then a star for a favourite, then "title by author (genre)" |
| Gui.Line | src/main/java/com/example/BookManagerGUI.java:185-186 | a list line ends with the genre in parentheses, and a favourite's line has the star right after the number |
| Gui.LineStartsWithNumber | src/main/java/com/example/BookManagerGUI.java:186 | each line begins with its 1-based position, a full stop and a space |
| Gui.LinesDistinct | src/main/java/com/example/BookManagerGUI.java:183-187 | lines at different positions are different strings, even for equal books |
| TableModel.ColumnOf | src/main/java/com/example/BookTableModel.java:89-97 | exactly the indices 0..3 denote a column |
| TableModel.ColumnIndex | src/main/java/com/example/BookTableModel.java:15 | each column's index is in 0..3 and maps back to that column |
| TableModel.Create | src/main/java/com/example/BookTableModel.java:25-28 | the constructor holds the given books and no update call has been made |
| TableModel.SetBooks | src/main/java/com/example/BookTableModel.java:35-38 | setBooks replaces the rows, so the row count is the new list's length |
| TableModel.GetBookAt | src/main/java/com/example/BookTableModel.java:46-48 | getBookAt returns row r and requires 0 <= r < row count |
| TableModel.RowCount | src/main/java/com/example/BookTableModel.java:56-58 | the row count is the number of held books |
| TableModel.ColumnCount | src/main/java/com/example/BookTableModel.java:66-68 | there are 4 columns |
| TableModel.ColumnName | src/main/java/com/example/BookTableModel.java:77-79 | a column's name is the entry of "Title", "Author", "Genre", "Favorite" for that column |
| TableModel.IsCellEditable | src/main/java/com/example/BookTableModel.java:108-110 | every cell is editable |
| TableModel.GetColumnClass | src/main/java/com/example/BookTableModel.java:141-143 | the class is Boolean exactly for the favourite column 3, String for every other index |
| TableModel.GetValueAt | src/main/java/com/example/BookTableModel.java:89-97 | column 0 reads the title, 1 the author and 2 the genre, each as a String, and 3 the favourite flag as a Boolean; a cell reads as null exactly when the column index is outside 0..3 |
| TableModel.ColumnClassMatchesValues | src/main/java/com/example/BookTableModel.java:89-97 | every value read from a column has the column's declared class |
| TableModel.CellText | src/main/java/com/example/BookTableModel.java:124-126 | toString of a String is the string itself; toString of a Boolean is "true" when it is true and "false" otherwise |
| TableModel.SetValueAt | src/main/java/com/example/BookTableModel.java:120-132 | an edit succeeds unless the value is null for a column 0..3 or is not a Boolean for column 3; on success only row r changes, its id is kept, an unknown column changes nothing, and updateBook is called exactly once with the row's book as edited |
| TableModel.SetThenGet | src/main/java/com/example/BookTableModel.java:120-128 | after a successful edit of column c in 0..3, reading it back gives the written value (as text for columns 0..2) |
| TableModel.SetLeavesOtherCells | src/main/java/com/example/BookTableModel.java:121-128 | a successful edit leaves every other cell of every row unchanged |
| TableModel.EditsAreLoggedOnce | src/main/java/com/example/BookTableModel.java:130 | a run of n successful edits adds exactly n updateBook calls after the earlier ones |
| Genres.AddGenre | src/main/java/com/example/GenreManagerDialog.java:45-50 | Add appends the trimmed input exactly when it is non-null, non-blank and not yet listed (case-sensitive); otherwise the list is unchanged |
| Genres.AddKeepsNoDuplicates | src/main/java/com/example/GenreManagerDialog.java:47-48 | a duplicate-free list stays duplicate-free after Add |
| Genres.AddKeepsClean | src/main/java/com/example/GenreManagerDialog.java:47-48 | entries added by Add are non-empty and have no leading or trailing whitespace |
| Genres.FirstIndexOf | src/main/java/com/example/GenreManagerDialog.java:59 | the index found holds the value and no earlier index does |
| Genres.RemoveElement | src/main/java/com/example/GenreManagerDialog.java:59 | removeElement drops the first occurrence of the value, or nothing if absent |
| Genres.RemoveElementSpec | src/main/java/com/example/GenreManagerDialog.java:59 | removeElement removes exactly one copy and keeps the order of the rest |
| Genres.DeleteGenres | src/main/java/com/example/GenreManagerDialog.java:56-61 | Delete leaves the list minus one copy per selected value (multiset difference), in the original order |
| Genres.DeleteDropsEarliest | src/main/java/com/example/GenreManagerDialog.java:56-61 | with repeated entries, Delete removes each value's earliest copies, as many as it is selected, and keeps the later ones |
| Genres.DeleteFirstCopyExample | src/main/java/com/example/GenreManagerDialog.java:59 | deleting "A" from ["A", "B", "A"] leaves ["B", "A"] |
| Genres.DeleteRemovesSelected | src/main/java/com/example/GenreManagerDialog.java:56-61 | on a duplicate-free list, Delete removes every selected value, keeps every unselected one, and stays duplicate-free |
| Genres.Save | src/main/java/com/example/GenreManagerDialog.java:67-73 | Save hands over the entries unchanged and in list order, then confirms with "Genres saved successfully." |

## Left out

- JDBC plumbing: connections, statements, and the `CREATE TABLE` call. Every store call
  is modelled as succeeding. The code catches and prints each `SQLException`, so it has
  no error channel to model.
- Integer width: ids are unbounded integers. SQLite ids are 64-bit and Java reads them
  with `getInt`, which truncates to 32 bits. No catalogue of realistic size reaches
  that limit.
- Store.GetAllBooks and Store.SearchBooks: both list in ascending id order. Neither
  query has an ORDER BY, so SQL promises no order; ascending id is SQLite's rowid
  scan order.
- Null genres: the genre column is nullable, but genres are modelled as non-null
  strings. In the window's search a book with a null genre throws in the keyword
  stage when neither its title nor its author matches, and in the genre stage when
  the chosen genre is not `"-"`.
- Case folding is ASCII only, in both the window filter and `LIKE`. Java's locale-
  and Unicode-aware `toLowerCase` is not modelled.
- Swing: layout, widgets and event wiring. Also the clearing of the input fields after
  an accepted add, the table change notifications (`fireTable*`) and `Main.java`.
  Message dialogs, in the main window and in the genre dialog, are modelled only as
  the text they show.
- `GenreLoader.loadGenres` is left out: it is an XML parse through a library and a
  class-path lookup.
- `GenreLoader.saveGenres`, `BookDAO.updateBook` and `BookManagerGUI.reloadGenres` are
  called but not defined in the code. They are not modelled. `updateBook` appears only
  as an entry in the table model's call log.
- The genre save/load round trip and the genre-file tests depend on file I/O and on
  the missing `saveGenres`.
- The genre dialog's constructor (copying the loaded genres into the list) and its
  Close button are widget wiring.
- Object aliasing: in Java, the table model copies only the list. Its `Book` objects
  are shared with the caller, so an edit also shows in the caller's list. The model
  uses values, so the copy is independent.
- TableModel.SetValueAt: models only String, Boolean and null cell values. Other value
  types (whose `toString` would also be stored) are not modelled. An out-of-range row
  is a precondition, not an `IndexOutOfBoundsException`.
- TableModel.GetValueAt, TableModel.GetBookAt and TableModel.ColumnName: an
  out-of-range row or column is a precondition rather than a thrown exception. The
  JTable never asks for one.
- Gui.DeleteSelected and Gui.ToggleFavorite: the selection index is either negative
  or a displayed row. That is what `JList.getSelectedIndex` returns, so indices past
  the list are excluded by a precondition.
- The `books == null` branch of `getRowCount` is unreachable: the constructor and
  `setBooks` always install a list.
