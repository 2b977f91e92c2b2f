/** `BookTableModel`: a four-column editable view over a list of books. Every cell edit
    that does not throw is written through with one `dao.updateBook(book)` call. That call's effect on the
    store is not part of this model, so the model records the calls, in order, in
    `updates`. */
module TableModel {
  import Books
  import opened Wrappers

  datatype Column = TitleColumn | AuthorColumn | GenreColumn | FavoriteColumn

  const ColumnNames: seq<string> := ["Title", "Author", "Genre", "Favorite"]

  /** The column a table index denotes; indices outside 0..3 denote none. */
  function ColumnOf(c: int): (col: Option<Column>)
    ensures col.Some? <==> 0 <= c < |ColumnNames|
  {
    if c == 0 then Some(TitleColumn)
    else if c == 1 then Some(AuthorColumn)
    else if c == 2 then Some(GenreColumn)
    else if c == 3 then Some(FavoriteColumn)
    else None
  }

  function ColumnIndex(col: Column): (c: int)
    ensures 0 <= c < |ColumnNames|
    ensures ColumnOf(c) == Some(col)
  {
    match col
    case TitleColumn => 0
    case AuthorColumn => 1
    case GenreColumn => 2
    case FavoriteColumn => 3
  }

  /** The three value kinds a cell exchanges: a String, a Boolean, or null. */
  datatype Cell = StringCell(text: string) | BooleanCell(flag: bool) | NullCell

  datatype ColumnClass = StringClass | BooleanClass

  /** The exceptions `setValueAt` can raise before it reaches `updateBook`. */
  datatype Fault = NullPointer | ClassCast

  /** The held rows, and every book passed to `dao.updateBook` so far. */
  datatype Model = Model(books: seq<Books.Book>, updates: seq<Books.Book>)

  /** The constructor: hold a copy of the list; no update call has been made. */
  function Create(books: seq<Books.Book>): (m: Model)
    ensures m.books == books && |m.updates| == 0
  {
    Model(books, [])
  }

  /** `setBooks`: replace the rows; the call history is kept. */
  function SetBooks(m: Model, books: seq<Books.Book>): (r: Model)
    ensures r.books == books && r.updates == m.updates
    ensures RowCount(r) == |books|
  {
    Model(books, m.updates)
  }

  function GetBookAt(m: Model, row: int): (b: Books.Book)
    requires 0 <= row < RowCount(m)
    ensures b == m.books[row] && b in m.books
  {
    m.books[row]
  }

  function RowCount(m: Model): (n: nat)
    ensures n == |m.books|
  {
    |m.books|
  }

  function ColumnCount(): (n: nat)
    ensures n == 4
  {
    |ColumnNames|
  }

  function ColumnName(c: int): (name: string)
    requires 0 <= c < ColumnCount()
    ensures name == ColumnNames[ColumnIndex(ColumnOf(c).value)]
  {
    ColumnNames[c]
  }

  /** Every cell is editable. */
  function IsCellEditable(row: int, c: int): (editable: bool)
    ensures editable
  {
    true
  }

  /** Column 3 holds Booleans (shown as check boxes); every other index holds Strings. */
  function GetColumnClass(c: int): (k: ColumnClass)
    ensures k == BooleanClass <==> ColumnOf(c) == Some(FavoriteColumn)
  {
    if c == 3 then BooleanClass else StringClass
  }

  /** The cell at `row` and column `c`: the book's field for that column, or null off the table. */
  function GetValueAt(m: Model, row: int, c: int): (v: Cell)
    requires 0 <= row < RowCount(m)
    ensures v == NullCell <==> ColumnOf(c).None?
    ensures ColumnOf(c) == Some(TitleColumn) ==> v == StringCell(m.books[row].title)
    ensures ColumnOf(c) == Some(AuthorColumn) ==> v == StringCell(m.books[row].author)
    ensures ColumnOf(c) == Some(GenreColumn) ==> v == StringCell(m.books[row].genre)
    ensures ColumnOf(c) == Some(FavoriteColumn) ==> v == BooleanCell(m.books[row].favorite)
  {
    var b := m.books[row];
    match ColumnOf(c)
    case Some(TitleColumn) => StringCell(b.title)
    case Some(AuthorColumn) => StringCell(b.author)
    case Some(GenreColumn) => StringCell(b.genre)
    case Some(FavoriteColumn) => BooleanCell(b.favorite)
    case None => NullCell
  }

  /** The class of a non-null cell value. */
  function ClassOf(v: Cell): ColumnClass
    requires v != NullCell
  {
    if v.BooleanCell? then BooleanClass else StringClass
  }

  /** The declared class of every real column is the class of the values read from it. */
  lemma ColumnClassMatchesValues(m: Model, row: int, c: int)
    requires 0 <= row < RowCount(m) && 0 <= c < ColumnCount()
    ensures GetColumnClass(c) == ClassOf(GetValueAt(m, row, c))
  {
  }

  /** `aValue.toString()` for a non-null String or Boolean. */
  function CellText(v: Cell): (s: string)
    requires v != NullCell
    ensures v.StringCell? ==> s == v.text
    ensures v.BooleanCell? ==> s == (if v.flag then "true" else "false")
  {
    match v
    case StringCell(t) => t
    case BooleanCell(f) => if f then "true" else "false"
  }

  /** Replace row `row` by `b` and pass `b` to `updateBook`. */
  function Commit(m: Model, row: int, b: Books.Book): (r: Result<Model, Fault>)
    requires 0 <= row < |m.books|
  {
    Success(Model(m.books[row := b], m.updates + [b]))
  }

  /** `setValueAt(v, row, c)`: update one field of the row's book, then call
      `updateBook` with it, even when the column is unknown and nothing changed.
      A null value or a non-Boolean favourite throws before the update call. */
  function SetValueAt(m: Model, v: Cell, row: int, c: int): (r: Result<Model, Fault>)
    requires 0 <= row < RowCount(m)
    ensures r.Success? <==> ColumnOf(c).None? || (c == 3 && v.BooleanCell?) || (0 <= c < 3 && v != NullCell)
    ensures r.Failure? ==> (r.error == NullPointer <==> v == NullCell)
    ensures r.Success? ==>
              && |r.value.books| == |m.books|
              && r.value.books[row].id == m.books[row].id
              && (forall i :: 0 <= i < |m.books| && i != row ==> r.value.books[i] == m.books[i])
              && r.value.updates == m.updates + [r.value.books[row]]
    ensures r.Success? && ColumnOf(c).None? ==> r.value.books == m.books
  {
    var b := m.books[row];
    match ColumnOf(c)
    case None => Success(Model(m.books, m.updates + [b]))
    case Some(FavoriteColumn) =>
      (match v
       case BooleanCell(f) => Commit(m, row, Books.SetFavorite(b, f))
       case NullCell => Failure(NullPointer)
       case StringCell(_) => Failure(ClassCast))
    case Some(TitleColumn) =>
      if v == NullCell then Failure(NullPointer) else Commit(m, row, Books.SetTitle(b, CellText(v)))
    case Some(AuthorColumn) =>
      if v == NullCell then Failure(NullPointer) else Commit(m, row, Books.SetAuthor(b, CellText(v)))
    case Some(GenreColumn) =>
      if v == NullCell then Failure(NullPointer) else Commit(m, row, Books.SetGenre(b, CellText(v)))
  }

  /** Reading a cell back after a successful edit gives the value written (as text
      for the String columns). */
  lemma SetThenGet(m: Model, v: Cell, row: int, c: int)
    requires 0 <= row < RowCount(m) && 0 <= c < ColumnCount()
    requires SetValueAt(m, v, row, c).Success?
    ensures GetValueAt(SetValueAt(m, v, row, c).value, row, c)
            == if c == 3 then v else StringCell(CellText(v))
  {
  }

  /** An edit changes only the edited cell: every other cell of every row reads as before. */
  lemma SetLeavesOtherCells(m: Model, v: Cell, row: int, c: int, row': int, c': int)
    requires 0 <= row < RowCount(m) && 0 <= row' < RowCount(m)
    requires SetValueAt(m, v, row, c).Success?
    requires row' != row || c' != c
    ensures GetValueAt(SetValueAt(m, v, row, c).value, row', c') == GetValueAt(m, row', c')
  {
  }

  /** Write-through over a run of successful edits: `updateBook` was called exactly
      once per edit, after the calls made before the run. */
  lemma {:induction false} EditsAreLoggedOnce(m: Model, edits: seq<(Cell, int, int)>)
    requires EditsSucceed(m, edits)
    ensures |ApplyEdits(m, edits).updates| == |m.updates| + |edits|
    ensures ApplyEdits(m, edits).updates[..|m.updates|] == m.updates
    decreases |edits|
  {
    if |edits| > 0 {
      var (v, row, c) := edits[0];
      var m' := SetValueAt(m, v, row, c).value;
      EditsAreLoggedOnce(m', edits[1..]);
      assert ApplyEdits(m, edits).updates[..|m'.updates|] == m'.updates;
      assert m'.updates[..|m.updates|] == m.updates;
    }
  }

  /** Every edit in the sequence hits an existing row and does not throw. */
  predicate EditsSucceed(m: Model, edits: seq<(Cell, int, int)>)
    decreases |edits|
  {
    |edits| == 0 ||
    (0 <= edits[0].1 < RowCount(m)
     && SetValueAt(m, edits[0].0, edits[0].1, edits[0].2).Success?
     && EditsSucceed(SetValueAt(m, edits[0].0, edits[0].1, edits[0].2).value, edits[1..]))
  }

  function ApplyEdits(m: Model, edits: seq<(Cell, int, int)>): Model
    requires EditsSucceed(m, edits)
    decreases |edits|
  {
    if |edits| == 0 then m
    else ApplyEdits(SetValueAt(m, edits[0].0, edits[0].1, edits[0].2).value, edits[1..])
  }
}
