/** The `books` table behind `BookDAO`, as SQL semantics rather than JDBC calls:
    `id INTEGER PRIMARY KEY AUTOINCREMENT, title TEXT NOT NULL, author TEXT NOT NULL,
    genre TEXT, favorite INTEGER DEFAULT 0`. */
module Store {
  import Books
  import opened Seqs
  import opened Text
  import opened Like

  /** One stored row; `favorite` is the INTEGER column, written as 0 or 1. */
  datatype Row = Row(title: string, author: string, genre: string, favorite: int)

  /** The table: rows by id, and the AUTOINCREMENT counter (the next id to assign). */
  datatype Table = Table(rows: map<int, Row>, next: int)

  /** Every stored id was assigned by the counter: ids start at 1 and lie below `next`. */
  predicate Valid(t: Table)
  {
    t.next >= 1 && forall id :: id in t.rows ==> 1 <= id < t.next
  }

  /** The freshly created table. */
  function Empty(): (t: Table)
    ensures Valid(t) && |t.rows| == 0
  {
    Table(map[], 1)
  }

  /** `isFavorite ? 1 : 0`. */
  function FlagToInt(v: bool): (n: int)
    ensures n == 0 || n == 1
    ensures (n == 1) == v
  {
    if v then 1 else 0
  }

  /** A result-set row read back as a book: `rs.getInt("favorite") == 1`. */
  function AsBook(id: int, row: Row): (b: Books.Book)
    ensures b.id == id && b.title == row.title && b.author == row.author && b.genre == row.genre
    ensures b.favorite <==> row.favorite == 1
  {
    Books.Book(id, row.title, row.author, row.genre, row.favorite == 1)
  }

  /** The row `addBook` inserts: title, author, genre and flag of the argument; its id is not used. */
  function RowOf(b: Books.Book): (row: Row)
    ensures forall id :: AsBook(id, row) == b.(id := id)
  {
    Row(b.title, b.author, b.genre, FlagToInt(b.favorite))
  }

  /** `addBook`: insert one row under a never-used id, with no validation. */
  function AddBook(t: Table, b: Books.Book): (r: Table)
    requires Valid(t)
    ensures Valid(r)
    ensures t.next !in t.rows && forall id :: id in t.rows ==> id < t.next
    ensures r.next == t.next + 1
    ensures r.rows.Keys == t.rows.Keys + {t.next}
    ensures AsBook(t.next, r.rows[t.next]) == b.(id := t.next)
    ensures forall id :: id in t.rows ==> r.rows[id] == t.rows[id]
  {
    Table(t.rows[t.next := RowOf(b)], t.next + 1)
  }

  /** The rows with ids in `[lo, next)`, in ascending id order (SQLite's rowid order
      for `SELECT * FROM books`). */
  function RowsFrom(t: Table, lo: int): (r: seq<Books.Book>)
    ensures |r| <= if lo < t.next then t.next - lo else 0
    ensures forall k :: 0 <= k < |r| ==> lo <= r[k].id < t.next
    ensures Ascending(r)
    decreases t.next - lo
  {
    if lo >= t.next then []
    else
      var rest := RowsFrom(t, lo + 1);
      if lo in t.rows then
        AscendingCons(AsBook(lo, t.rows[lo]), rest, t.next);
        [AsBook(lo, t.rows[lo])] + rest
      else rest
  }

  /** Ids strictly increase along the list, so no id occurs twice. */
  predicate Ascending(s: seq<Books.Book>)
  {
    forall i, j :: 0 <= i < j < |s| ==> s[i].id < s[j].id
  }

  /** Putting a book in front of a list of larger ids keeps the ids ascending and in range. */
  lemma AscendingCons(b: Books.Book, rest: seq<Books.Book>, hi: int)
    requires b.id < hi && Ascending(rest)
    requires forall k :: 0 <= k < |rest| ==> b.id < rest[k].id < hi
    ensures Ascending([b] + rest)
    ensures forall k :: 0 <= k < |[b] + rest| ==> b.id <= ([b] + rest)[k].id < hi
  {
    var r := [b] + rest;
    forall i, j | 0 <= i < j < |r| ensures r[i].id < r[j].id {
      assert r[j] == rest[j - 1];
      if i > 0 { assert r[i] == rest[i - 1]; }
    }
    forall k | 0 <= k < |r| ensures b.id <= r[k].id < hi {
      if k > 0 { assert r[k] == rest[k - 1]; }
    }
  }

  /** Everything listed is a stored row, read back faithfully, in strictly ascending id order. */
  lemma {:induction false} RowsFromSound(t: Table, lo: int)
    ensures forall b :: b in RowsFrom(t, lo) ==>
              lo <= b.id < t.next && b.id in t.rows && b == AsBook(b.id, t.rows[b.id])
    ensures forall i, j :: 0 <= i < j < |RowsFrom(t, lo)| ==> RowsFrom(t, lo)[i].id < RowsFrom(t, lo)[j].id
    decreases t.next - lo
  {
    if lo < t.next {
      RowsFromSound(t, lo + 1);
      var r := RowsFrom(t, lo);
      var rest := RowsFrom(t, lo + 1);
      if lo in t.rows {
        assert r == [AsBook(lo, t.rows[lo])] + rest;
        forall i, j | 0 <= i < j < |r| ensures r[i].id < r[j].id {
          assert r[j] == rest[j - 1];
          if i > 0 { assert r[i] == rest[i - 1]; }
        }
      } else {
        assert r == rest;
      }
    } else {
      assert RowsFrom(t, lo) == [];
    }
  }

  /** Every stored row with an id in `[lo, next)` is listed. */
  lemma {:induction false} RowsFromComplete(t: Table, lo: int)
    ensures forall id :: id in t.rows && lo <= id < t.next ==> AsBook(id, t.rows[id]) in RowsFrom(t, lo)
    decreases t.next - lo
  {
    if lo < t.next {
      RowsFromComplete(t, lo + 1);
      if lo in t.rows {
        assert RowsFrom(t, lo) == [AsBook(lo, t.rows[lo])] + RowsFrom(t, lo + 1);
      }
    }
  }

  /** `getAllBooks`: every stored row exactly once, in id order, with `favorite`
      true exactly when the stored integer is 1. */
  function GetAllBooks(t: Table): (r: seq<Books.Book>)
    requires Valid(t)
    ensures forall b :: b in r ==> b.id in t.rows && b == AsBook(b.id, t.rows[b.id])
    ensures forall id :: id in t.rows ==> AsBook(id, t.rows[id]) in r
    ensures forall i, j :: 0 <= i < j < |r| ==> r[i].id < r[j].id
  {
    RowsFromSound(t, 1);
    RowsFromComplete(t, 1);
    RowsFrom(t, 1)
  }

  ghost function IdsFrom(t: Table, lo: int): set<int>
  {
    set id | id in t.rows && lo <= id < t.next
  }

  lemma {:induction false} RowsFromCount(t: Table, lo: int)
    ensures |RowsFrom(t, lo)| == |IdsFrom(t, lo)|
    decreases t.next - lo
  {
    if lo >= t.next {
      assert IdsFrom(t, lo) == {};
    } else {
      RowsFromCount(t, lo + 1);
      if lo in t.rows {
        assert IdsFrom(t, lo) == {lo} + IdsFrom(t, lo + 1);
      } else {
        assert IdsFrom(t, lo) == IdsFrom(t, lo + 1);
      }
    }
  }

  /** The listing is exactly as long as the table: no row is omitted or repeated. */
  lemma GetAllBooksCount(t: Table)
    requires Valid(t)
    ensures |GetAllBooks(t)| == |t.rows|
  {
    RowsFromCount(t, 1);
    assert IdsFrom(t, 1) == t.rows.Keys;
  }

  lemma {:induction false} RowsFromAdd(t: Table, b: Books.Book, lo: int)
    requires Valid(t) && lo <= t.next
    ensures RowsFrom(AddBook(t, b), lo) == RowsFrom(t, lo) + [b.(id := t.next)]
    decreases t.next - lo
  {
    if lo == t.next {
      AddAtCounter(t, b);
    } else {
      RowsFromAdd(t, b, lo + 1);
      AddStep(t, b, lo);
    }
  }

  lemma AddAtCounter(t: Table, b: Books.Book)
    requires Valid(t)
    ensures RowsFrom(AddBook(t, b), t.next) == RowsFrom(t, t.next) + [b.(id := t.next)]
  {
    var r := AddBook(t, b);
    assert RowsFrom(r, t.next + 1) == [];
    assert RowsFrom(t, t.next) == [];
  }

  /** One step of the listing after an add: rows below the counter are listed as before. */
  lemma AddStep(t: Table, b: Books.Book, lo: int)
    requires Valid(t) && lo < t.next
    requires RowsFrom(AddBook(t, b), lo + 1) == RowsFrom(t, lo + 1) + [b.(id := t.next)]
    ensures RowsFrom(AddBook(t, b), lo) == RowsFrom(t, lo) + [b.(id := t.next)]
  {
    var r := AddBook(t, b);
    if lo in t.rows {
      var head := [AsBook(lo, t.rows[lo])];
      assert r.rows[lo] == t.rows[lo];
      assert RowsFrom(r, lo) == head + RowsFrom(r, lo + 1);
      assert RowsFrom(t, lo) == head + RowsFrom(t, lo + 1);
    } else {
      assert lo !in r.rows;
      assert RowsFrom(r, lo) == RowsFrom(r, lo + 1);
      assert RowsFrom(t, lo) == RowsFrom(t, lo + 1);
    }
  }

  /** After `addBook` the listing is the old listing plus the new book at the end,
      carrying the freshly assigned id and the argument's other fields. */
  lemma AddThenList(t: Table, b: Books.Book)
    requires Valid(t)
    ensures GetAllBooks(AddBook(t, b)) == GetAllBooks(t) + [b.(id := t.next)]
  {
    RowsFromAdd(t, b, 1);
  }

  /** `addBook` stores even a book whose fields are all empty. */
  lemma AddAcceptsEmptyFields(t: Table)
    requires Valid(t)
    ensures var b := Books.NewBook("", "", "");
            b.(id := t.next) in GetAllBooks(AddBook(t, b))
  {
    AddThenList(t, Books.NewBook("", "", ""));
  }

  /** `deleteBook`: remove the row with this id, if there is one. */
  function DeleteBook(t: Table, id: int): (r: Table)
    requires Valid(t)
    ensures Valid(r) && r.next == t.next
    ensures r.rows.Keys == t.rows.Keys - {id}
    ensures forall other :: other in r.rows ==> r.rows[other] == t.rows[other]
    ensures id !in t.rows ==> r == t
  {
    Table(t.rows - {id}, t.next)
  }

  /** The filter that keeps every book except the one with id `id`. */
  function OtherThan(id: int): Books.Book -> bool
  {
    (b: Books.Book) => b.id != id
  }

  lemma {:induction false} RowsFromDelete(t: Table, id: int, lo: int)
    requires Valid(t)
    ensures RowsFrom(DeleteBook(t, id), lo) == Filter(RowsFrom(t, lo), OtherThan(id))
    decreases t.next - lo
  {
    if lo < t.next {
      RowsFromDelete(t, id, lo + 1);
      DeleteStep(t, id, lo);
    } else {
      DeletePast(t, id, lo);
    }
  }

  lemma DeletePast(t: Table, id: int, lo: int)
    requires Valid(t) && lo >= t.next
    ensures RowsFrom(DeleteBook(t, id), lo) == Filter(RowsFrom(t, lo), OtherThan(id))
  {
    assert DeleteBook(t, id).next == t.next;
    assert RowsFrom(DeleteBook(t, id), lo) == [] == RowsFrom(t, lo);
  }

  lemma DeleteStep(t: Table, id: int, lo: int)
    requires Valid(t) && lo < t.next
    requires RowsFrom(DeleteBook(t, id), lo + 1) == Filter(RowsFrom(t, lo + 1), OtherThan(id))
    ensures RowsFrom(DeleteBook(t, id), lo) == Filter(RowsFrom(t, lo), OtherThan(id))
  {
    var p := OtherThan(id);
    var rest := RowsFrom(t, lo + 1);
    DeleteUnfold(t, id, lo);
    if lo in t.rows {
      var head := [AsBook(lo, t.rows[lo])];
      assert RowsFrom(t, lo) == head + rest;
      FilterAppend(head, rest, p);
      assert head[1..] == [];
    } else {
      assert RowsFrom(t, lo) == rest;
    }
  }

  /** One step of the listing after a delete: row `lo` is listed unless it is the deleted one. */
  lemma DeleteUnfold(t: Table, id: int, lo: int)
    requires Valid(t) && lo < t.next
    ensures lo in t.rows && lo != id ==>
              RowsFrom(DeleteBook(t, id), lo) == [AsBook(lo, t.rows[lo])] + RowsFrom(DeleteBook(t, id), lo + 1)
    ensures !(lo in t.rows && lo != id) ==>
              RowsFrom(DeleteBook(t, id), lo) == RowsFrom(DeleteBook(t, id), lo + 1)
  {
  }

  /** After `deleteBook(id)` the listing is the old one without that id, order kept. */
  lemma DeleteThenList(t: Table, id: int)
    requires Valid(t)
    ensures GetAllBooks(DeleteBook(t, id)) == Filter(GetAllBooks(t), OtherThan(id))
    ensures forall b :: b in GetAllBooks(DeleteBook(t, id)) ==> b.id != id
  {
    RowsFromDelete(t, id, 1);
  }

  /** Deleting twice is deleting once. */
  lemma DeleteIdempotent(t: Table, id: int)
    requires Valid(t)
    ensures DeleteBook(DeleteBook(t, id), id) == DeleteBook(t, id)
  {
  }

  /** `setFavorite`: `UPDATE books SET favorite = ? WHERE id = ?`. */
  function SetFavorite(t: Table, id: int, v: bool): (r: Table)
    requires Valid(t)
    ensures Valid(r) && r.next == t.next && r.rows.Keys == t.rows.Keys
    ensures id !in t.rows ==> r == t
    ensures id in t.rows ==> AsBook(id, r.rows[id]) == AsBook(id, t.rows[id]).(favorite := v)
    ensures forall other :: other in t.rows && other != id ==> r.rows[other] == t.rows[other]
  {
    if id in t.rows then Table(t.rows[id := t.rows[id].(favorite := FlagToInt(v))], t.next)
    else t
  }

  /** What `setFavorite(id, v)` does to a listed book: only the book with that id gets the flag `v`. */
  function MarkIf(id: int, v: bool): Books.Book -> Books.Book
  {
    (b: Books.Book) => if b.id == id then Books.SetFavorite(b, v) else b
  }

  /** After `setFavorite(id, v)` the listing is the old one, in the same order, with
      only the book with that id changed, and only in its flag. */
  lemma SetFavoriteThenList(t: Table, id: int, v: bool)
    requires Valid(t)
    ensures GetAllBooks(SetFavorite(t, id, v)) == Map(GetAllBooks(t), MarkIf(id, v))
  {
    RowsFromSetFavorite(t, id, v, 1);
  }

  lemma {:induction false} RowsFromSetFavorite(t: Table, id: int, v: bool, lo: int)
    requires Valid(t)
    ensures RowsFrom(SetFavorite(t, id, v), lo) == Map(RowsFrom(t, lo), MarkIf(id, v))
    decreases t.next - lo
  {
    if lo < t.next {
      RowsFromSetFavorite(t, id, v, lo + 1);
      SetFavoriteStep(t, id, v, lo);
    } else {
      assert SetFavorite(t, id, v).next == t.next;
      assert RowsFrom(SetFavorite(t, id, v), lo) == [] == RowsFrom(t, lo);
    }
  }

  /** One step of the listing after `setFavorite`: row `lo` is listed as before, marked
      if it is the one with that id. */
  lemma SetFavoriteStep(t: Table, id: int, v: bool, lo: int)
    requires Valid(t) && lo < t.next
    requires RowsFrom(SetFavorite(t, id, v), lo + 1) == Map(RowsFrom(t, lo + 1), MarkIf(id, v))
    ensures RowsFrom(SetFavorite(t, id, v), lo) == Map(RowsFrom(t, lo), MarkIf(id, v))
  {
    var r := SetFavorite(t, id, v);
    var f := MarkIf(id, v);
    var rest := RowsFrom(t, lo + 1);
    if lo in t.rows {
      var x := AsBook(lo, t.rows[lo]);
      assert AsBook(lo, r.rows[lo]) == f(x);
      assert RowsFrom(r, lo) == [f(x)] + RowsFrom(r, lo + 1);
      assert RowsFrom(t, lo) == [x] + rest;
      MapCons(x, rest, f);
    } else {
      assert lo !in r.rows;
      assert RowsFrom(r, lo) == RowsFrom(r, lo + 1);
      assert RowsFrom(t, lo) == rest;
    }
  }

  lemma SetFavoriteIdempotent(t: Table, id: int, v: bool)
    requires Valid(t)
    ensures SetFavorite(SetFavorite(t, id, v), id, v) == SetFavorite(t, id, v)
  {
  }

  /** A row matched by `title LIKE p OR author LIKE p OR genre LIKE p`, p = `%k%`. */
  predicate LikeMatches(k: string, b: Books.Book)
  {
    var p := InfixPattern(k);
    Like.Like(p, b.title) || Like.Like(p, b.author) || Like.Like(p, b.genre)
  }

  /** `searchBooks(k)`: the listing restricted to the rows the LIKE condition selects. */
  function SearchBooks(t: Table, k: string): (r: seq<Books.Book>)
    requires Valid(t)
    ensures IsSubsequence(r, GetAllBooks(t))
    ensures forall b :: b in r <==> b in GetAllBooks(t) && LikeMatches(k, b)
  {
    FilterIsSubsequence(GetAllBooks(t), b => LikeMatches(k, b));
    Filter(GetAllBooks(t), b => LikeMatches(k, b))
  }

  /** Case-insensitive (ASCII) substring match of `k` in title, author or genre. */
  predicate KeywordIn(k: string, b: Books.Book)
  {
    Contains(Lower(b.title), Lower(k)) || Contains(Lower(b.author), Lower(k))
    || Contains(Lower(b.genre), Lower(k))
  }

  /** For a keyword free of `%` and `_`, `searchBooks` returns exactly the rows whose
      title, author or genre contains the keyword, ignoring case. */
  lemma SearchIsSubstringMatch(t: Table, k: string)
    requires Valid(t) && NoWildcards(k)
    ensures SearchBooks(t, k) == Filter(GetAllBooks(t), b => KeywordIn(k, b))
    ensures forall b :: b in SearchBooks(t, k) <==> b in GetAllBooks(t) && KeywordIn(k, b)
  {
    forall b | b in GetAllBooks(t) ensures LikeMatches(k, b) == KeywordIn(k, b) {
      InfixPatternIsContains(k, b.title);
      InfixPatternIsContains(k, b.author);
      InfixPatternIsContains(k, b.genre);
    }
    FilterCongruent(GetAllBooks(t), b => LikeMatches(k, b), b => KeywordIn(k, b));
  }

  /** `searchBooks("")` lists every row: `title LIKE '%%'` holds of every title. */
  lemma SearchEmptyIsAll(t: Table)
    requires Valid(t)
    ensures SearchBooks(t, "") == GetAllBooks(t)
  {
    forall b | b in GetAllBooks(t) ensures LikeMatches("", b) {
      EmptyInfixMatchesAll(b.title);
    }
    FilterKeepsAll(GetAllBooks(t), b => LikeMatches("", b));
  }

  /** The store operations, for reasoning about sequences of calls. */
  datatype Op = Add(book: Books.Book) | Delete(id: int) | Favorite(id: int, value: bool)

  function Apply(t: Table, op: Op): (r: Table)
    requires Valid(t)
    ensures Valid(r)
  {
    match op
    case Add(b) => AddBook(t, b)
    case Delete(id) => DeleteBook(t, id)
    case Favorite(id, v) => SetFavorite(t, id, v)
  }

  function Run(t: Table, ops: seq<Op>): (r: Table)
    requires Valid(t)
    ensures Valid(r)
    decreases |ops|
  {
    if |ops| == 0 then t else Run(Apply(t, ops[0]), ops[1..])
  }

  /** The counter never goes back, and every id a run adds is at or above the
      counter's value at the start. */
  lemma {:induction false} RunIssuesFreshIds(t: Table, ops: seq<Op>)
    requires Valid(t)
    ensures Run(t, ops).next >= t.next
    ensures forall id :: id in Run(t, ops).rows ==> id in t.rows || id >= t.next
    decreases |ops|
  {
    if |ops| > 0 {
      RunIssuesFreshIds(Apply(t, ops[0]), ops[1..]);
    }
  }

  /** Ids are never reused: once a stored book is deleted, no later sequence of
      additions, deletions and flag updates brings its id back. */
  lemma DeletedIdNeverReturns(t: Table, id: int, ops: seq<Op>)
    requires Valid(t) && id in t.rows
    ensures id !in Run(DeleteBook(t, id), ops).rows
  {
    RunIssuesFreshIds(DeleteBook(t, id), ops);
  }

  /** Two insertions into a table with no rows are listed in insertion order. */
  lemma ListAfterTwoInserts(t: Table, a: Books.Book, b: Books.Book)
    requires Valid(t) && t.rows == map[]
    ensures GetAllBooks(AddBook(AddBook(t, a), b)) == [a.(id := t.next), b.(id := t.next + 1)]
  {
    ListAfterOneInsert(t, a);
    ListAfterInsertOnto(AddBook(t, a), b, a.(id := t.next));
  }

  lemma ListAfterInsertOnto(t: Table, b: Books.Book, first: Books.Book)
    requires Valid(t) && GetAllBooks(t) == [first]
    ensures GetAllBooks(AddBook(t, b)) == [first, b.(id := t.next)]
  {
    AddThenList(t, b);
    assert [first] + [b.(id := t.next)] == [first, b.(id := t.next)];
  }

  lemma ListAfterOneInsert(t: Table, a: Books.Book)
    requires Valid(t) && t.rows == map[]
    ensures GetAllBooks(AddBook(t, a)) == [a.(id := t.next)]
  {
    GetAllBooksCount(t);
    AddThenList(t, a);
  }

  /** Marking the first of two fresh rows is the same as having inserted it marked. */
  lemma FavoriteFirstOfTwo(t: Table, a: Books.Book, b: Books.Book)
    requires Valid(t)
    ensures SetFavorite(AddBook(AddBook(t, a), b), t.next, true)
            == AddBook(AddBook(t, Books.SetFavorite(a, true)), b)
  {
    var n := t.next;
    var starred := RowOf(Books.SetFavorite(a, true));
    var t2 := AddBook(AddBook(t, a), b);
    assert t2.rows == t.rows[n := RowOf(a)][n + 1 := RowOf(b)];
    assert SetFavorite(t2, n, true).rows == t.rows[n := RowOf(a)][n + 1 := RowOf(b)][n := starred];
    assert AddBook(AddBook(t, Books.SetFavorite(a, true)), b).rows == t.rows[n := starred][n + 1 := RowOf(b)];
  }

  /** The two-inserts scenario: into a table with no rows insert two new books, mark the
      first listed one as favourite, and exactly one listed book is a favourite. */
  lemma TwoInsertsOneFavorite(t: Table, a: Books.Book, b: Books.Book)
    requires Valid(t) && t.rows == map[]
    requires !a.favorite && !b.favorite
    ensures var t2 := AddBook(AddBook(t, a), b);
            var listed := GetAllBooks(t2);
            |listed| == 2 &&
            |Filter(GetAllBooks(SetFavorite(t2, listed[0].id, true)), (x: Books.Book) => x.favorite)| == 1
  {
    var n := t.next;
    var t2 := AddBook(AddBook(t, a), b);
    ListAfterTwoInserts(t, a, b);
    assert GetAllBooks(t2)[0].id == n;
    var a' := Books.SetFavorite(a, true);
    var u := AddBook(AddBook(t, a'), b);
    FavoriteFirstOfTwo(t, a, b);
    ListAfterTwoInserts(t, a', b);
    FavoritesOfPair(a'.(id := n), b.(id := n + 1));
  }

  lemma FavoritesOfPair(x: Books.Book, y: Books.Book)
    requires x.favorite && !y.favorite
    ensures Filter([x, y], (b: Books.Book) => b.favorite) == [x]
  {
    var listed := [x, y];
    var p := (b: Books.Book) => b.favorite;
    assert listed[1..] == [y];
    assert listed[1..][1..] == [];
    assert Filter(listed[1..][1..], p) == [];
    assert Filter(listed[1..], p) == [];
  }
}
