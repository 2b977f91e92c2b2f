/** The keyword / genre / favourites filter of `BookManagerGUI.searchBooks`, a pure
    function of a `getAllBooks` snapshot and the three filter inputs. */
module Pipeline {
  import Books
  import opened Seqs
  import opened Text
  import Like
  import Store

  /** The genre-filter entry placed first in the combo box, meaning "all genres". */
  const AllGenres: string := "-"

  /** The choices of the genre filter: the sentinel, then the loaded genres. */
  function GenreFilterChoices(loaded: seq<string>): (r: seq<string>)
    ensures |r| == |loaded| + 1 && r[0] == AllGenres && r[1..] == loaded
  {
    [AllGenres] + loaded
  }

  /** The search text as matched: trimmed, then lower-cased. The result is the
      lower-cased text with its surrounding blanks removed: an infix of it with only
      trimmable characters around it, that neither starts nor ends with one. */
  function NormalizeKeyword(raw: string): (kw: string)
    ensures kw == Lower(kw)
    ensures |kw| <= |raw|
    ensures kw == [] || (!IsTrimmable(kw[0]) && !IsTrimmable(kw[|kw| - 1]))
    ensures exists i :: TrimmedAt(Lower(raw), kw, i)
  {
    TrimThenLower(raw);
    Lower(Trim(raw))
  }

  /** Lower-casing the trimmed text keeps it folded and keeps it the trimmed infix,
      now of the folded text. */
  lemma TrimThenLower(raw: string)
    ensures Lower(Trim(raw)) == Lower(Lower(Trim(raw)))
    ensures |Lower(Trim(raw))| <= |raw|
    ensures Lower(Trim(raw)) == [] || (!IsTrimmable(Lower(Trim(raw))[0]) && !IsTrimmable(Lower(Trim(raw))[|Lower(Trim(raw))| - 1]))
    ensures exists i :: TrimmedAt(Lower(raw), Lower(Trim(raw)), i)
  {
    LowerIdempotent(Trim(raw));
    LowerKeepsTrim(raw);
  }

  /** First stage: the keyword occurs in the lower-cased title, author or genre. An
      empty keyword passes every book; a keyword passes only books with a field at
      least as long as it. */
  predicate KeywordStage(kw: string, b: Books.Book)
    ensures kw == [] ==> KeywordStage(kw, b)
    ensures KeywordStage(kw, b) ==> |kw| <= |b.title| || |kw| <= |b.author| || |kw| <= |b.genre|
  {
    Contains(Lower(b.title), kw) || Contains(Lower(b.author), kw) || Contains(Lower(b.genre), kw)
  }

  /** Second stage: the sentinel passes everything, any other choice must equal the
      book's genre exactly (case-sensitive). */
  predicate GenreStage(selected: string, b: Books.Book)
    ensures selected == AllGenres ==> GenreStage(selected, b)
    ensures selected != AllGenres ==> (GenreStage(selected, b) <==> b.genre == selected)
  {
    selected == AllGenres || b.genre == selected
  }

  /** Third stage: with favourites-only off every book passes, a starred book always
      passes, and with it on an unstarred book fails. */
  predicate FavoriteStage(onlyFavorites: bool, b: Books.Book)
    ensures !onlyFavorites ==> FavoriteStage(onlyFavorites, b)
    ensures b.favorite ==> FavoriteStage(onlyFavorites, b)
    ensures onlyFavorites && !b.favorite ==> !FavoriteStage(onlyFavorites, b)
  {
    !onlyFavorites || b.favorite
  }

  /** The stages as filter tests for a given set of inputs. */
  function KeywordTest(raw: string): Books.Book -> bool
  {
    b => KeywordStage(NormalizeKeyword(raw), b)
  }

  function GenreTest(selected: string): Books.Book -> bool
  {
    b => GenreStage(selected, b)
  }

  function FavoriteTest(onlyFavorites: bool): Books.Book -> bool
  {
    b => FavoriteStage(onlyFavorites, b)
  }

  /** A book is shown iff it passes all three stages. */
  predicate Shown(raw: string, selected: string, onlyFavorites: bool, b: Books.Book)
  {
    KeywordStage(NormalizeKeyword(raw), b) && GenreStage(selected, b) && FavoriteStage(onlyFavorites, b)
  }

  /** The three stream filters, in the order `searchBooks` applies them. */
  function FilterBooks(all: seq<Books.Book>, raw: string, selected: string, onlyFavorites: bool)
    : (r: seq<Books.Book>)
    ensures IsSubsequence(r, all)
    ensures forall b :: b in r <==> b in all && Shown(raw, selected, onlyFavorites, b)
  {
    var kw := NormalizeKeyword(raw);
    var byKeyword := Filter(all, b => KeywordStage(kw, b));
    var byGenre := Filter(byKeyword, b => GenreStage(selected, b));
    FilterIsSubsequence(all, b => KeywordStage(kw, b));
    FilterIsSubsequence(byKeyword, b => GenreStage(selected, b));
    FilterIsSubsequence(byGenre, b => FavoriteStage(onlyFavorites, b));
    SubsequenceTrans(byGenre, byKeyword, all);
    var r := Filter(byGenre, b => FavoriteStage(onlyFavorites, b));
    SubsequenceTrans(r, byGenre, all);
    r
  }

  /** The pipeline is one pass with the conjunction of the three stages. */
  lemma SinglePass(all: seq<Books.Book>, raw: string, selected: string, onlyFavorites: bool)
    ensures FilterBooks(all, raw, selected, onlyFavorites)
            == Filter(all, b => Shown(raw, selected, onlyFavorites, b))
  {
    var kw := NormalizeKeyword(raw);
    var k := (b: Books.Book) => KeywordStage(kw, b);
    var g := (b: Books.Book) => GenreStage(selected, b);
    var f := (b: Books.Book) => FavoriteStage(onlyFavorites, b);
    assert FilterBooks(all, raw, selected, onlyFavorites) == Filter(Filter(Filter(all, k), g), f);
    ThreeFiltersFuse(all, k, g, f, b => Shown(raw, selected, onlyFavorites, b));
  }

  /** The stages commute: running them in any of the other five orders gives the
      same list as the order of `searchBooks` (keyword, genre, favourites). */
  lemma StagesCommute(all: seq<Books.Book>, raw: string, selected: string, onlyFavorites: bool)
    ensures FilterBooks(all, raw, selected, onlyFavorites)
            == Filter(Filter(Filter(all, KeywordTest(raw)), FavoriteTest(onlyFavorites)), GenreTest(selected))
    ensures FilterBooks(all, raw, selected, onlyFavorites)
            == Filter(Filter(Filter(all, GenreTest(selected)), KeywordTest(raw)), FavoriteTest(onlyFavorites))
    ensures FilterBooks(all, raw, selected, onlyFavorites)
            == Filter(Filter(Filter(all, GenreTest(selected)), FavoriteTest(onlyFavorites)), KeywordTest(raw))
    ensures FilterBooks(all, raw, selected, onlyFavorites)
            == Filter(Filter(Filter(all, FavoriteTest(onlyFavorites)), KeywordTest(raw)), GenreTest(selected))
    ensures FilterBooks(all, raw, selected, onlyFavorites)
            == Filter(Filter(Filter(all, FavoriteTest(onlyFavorites)), GenreTest(selected)), KeywordTest(raw))
  {
    var k, g, f := KeywordTest(raw), GenreTest(selected), FavoriteTest(onlyFavorites);
    var shown := (b: Books.Book) => Shown(raw, selected, onlyFavorites, b);
    SinglePass(all, raw, selected, onlyFavorites);
    ThreeFiltersFuse(all, k, f, g, shown);
    ThreeFiltersFuse(all, g, k, f, shown);
    ThreeFiltersFuse(all, g, f, k, shown);
    ThreeFiltersFuse(all, f, k, g, shown);
    ThreeFiltersFuse(all, f, g, k, shown);
  }

  /** Blanks around the search text do not change what is shown. */
  lemma SurroundingBlanksIgnored(all: seq<Books.Book>, raw: string, selected: string, onlyFavorites: bool)
    ensures FilterBooks(all, raw, selected, onlyFavorites) == FilterBooks(all, Trim(raw), selected, onlyFavorites)
  {
    TrimIdempotent(raw);
  }

  /** Each book of the snapshot is kept as often as it occurs, or not at all. */
  lemma FilterKeepsMultiplicity(all: seq<Books.Book>, raw: string, selected: string, onlyFavorites: bool)
    ensures forall b :: multiset(FilterBooks(all, raw, selected, onlyFavorites))[b]
                        == if Shown(raw, selected, onlyFavorites, b) then multiset(all)[b] else 0
  {
    SinglePass(all, raw, selected, onlyFavorites);
    FilterMultiplicity(all, b => Shown(raw, selected, onlyFavorites, b));
  }

  /** A blank search text, the sentinel genre and favourites-only off show the whole snapshot. */
  lemma NoFilterShowsAll(all: seq<Books.Book>, raw: string)
    requires forall k :: 0 <= k < |raw| ==> IsTrimmable(raw[k])
    ensures FilterBooks(all, raw, AllGenres, false) == all
  {
    TrimEmptyIffBlank(raw);
    forall b | b in all ensures Shown(raw, AllGenres, false, b) {
      ContainsEmpty(Lower(b.title));
    }
    SinglePass(all, raw, AllGenres, false);
    FilterKeepsAll(all, b => Shown(raw, AllGenres, false, b));
  }

  /** A genre choice other than the sentinel keeps only books of exactly that genre. */
  lemma GenreChoiceIsExact(all: seq<Books.Book>, raw: string, selected: string, onlyFavorites: bool)
    requires selected != AllGenres
    ensures forall b :: b in FilterBooks(all, raw, selected, onlyFavorites) ==> b.genre == selected
  {
  }

  /** The in-memory keyword filter agrees with the store's `searchBooks` for a keyword
      that is already trimmed and free of LIKE wildcards. */
  lemma KeywordFilterMatchesStoreSearch(t: Store.Table, k: string)
    requires Store.Valid(t) && Like.NoWildcards(k) && Trim(k) == k
    ensures FilterBooks(Store.GetAllBooks(t), k, AllGenres, false) == Store.SearchBooks(t, k)
  {
    var all := Store.GetAllBooks(t);
    Store.SearchIsSubstringMatch(t, k);
    SinglePass(all, k, AllGenres, false);
    FilterCongruent(all, b => Shown(k, AllGenres, false, b), b => Store.KeywordIn(k, b));
  }

  /** An example: keyword "mystery", all genres, favourites-only off. */
  lemma MysteryExample()
    ensures var code := Books.Book(1, "The Mystery Code", "Alan Poe", "Mystery", false);
            var romance := Books.Book(2, "Romance Story", "Emma Blake", "Romance", false);
            FilterBooks([code, romance], "mystery", AllGenres, false) == [code]
  {
    var code := Books.Book(1, "The Mystery Code", "Alan Poe", "Mystery", false);
    var romance := Books.Book(2, "Romance Story", "Emma Blake", "Romance", false);
    MysteryShown(code);
    MysteryHidden(romance);
    PairFilter(code, romance, b => Shown("mystery", AllGenres, false, b));
    SinglePass([code, romance], "mystery", AllGenres, false);
  }

  lemma MysteryKeyword()
    ensures NormalizeKeyword("mystery") == "mystery"
  {
    var kw := "mystery";
    assert TrimStart(kw) == kw;
    assert TrimEnd(kw) == kw;
  }

  lemma MysteryShown(b: Books.Book)
    requires b.genre == "Mystery"
    ensures Shown("mystery", AllGenres, false, b)
  {
    assert Contains(Lower(b.genre), "mystery") by {
      assert Lower(b.genre) == "mystery";
      assert IsPrefix("mystery", Lower(b.genre));
    }
    MysteryKeyword();
  }

  lemma MysteryHidden(b: Books.Book)
    requires b.title == "Romance Story" && b.author == "Emma Blake" && b.genre == "Romance"
    ensures !Shown("mystery", AllGenres, false, b)
  {
    MysteryInNoField(b);
    MysteryKeyword();
  }

  /** The keyword stage alone rejects the romance book. */
  lemma MysteryInNoField(b: Books.Book)
    requires b.title == "Romance Story" && b.author == "Emma Blake" && b.genre == "Romance"
    ensures !KeywordStage("mystery", b)
  {
    RomanceFieldHasNoMystery(b.title);
    RomanceFieldHasNoMystery(b.author);
    RomanceFieldHasNoMystery(b.genre);
  }

  /** None of the romance book's three fields contains "mystery" once lower-cased. */
  lemma RomanceFieldHasNoMystery(s: string)
    requires s == "Romance Story" || s == "Emma Blake" || s == "Romance"
    ensures !Contains(Lower(s), "mystery")
  {
    if s == "Romance Story" {
      NoMysteryOnceLowered("Romance Story");
    } else if s == "Emma Blake" {
      NoMysteryOnceLowered("Emma Blake");
    } else {
      NoMysteryOnceLowered("Romance");
    }
  }

  /** A text in which no letter 'm' or 'M' is followed by 'y' or 'Y' does not contain
      "mystery" once lower-cased. */
  lemma NoMysteryOnceLowered(s: string)
    requires forall i :: 0 <= i < |s| - 1 ==> !(LowerChar(s[i]) == 'm' && LowerChar(s[i + 1]) == 'y')
    ensures !Contains(Lower(s), "mystery")
  {
    NoMyMeansNoMystery(Lower(s));
  }

  lemma PairFilter(x: Books.Book, y: Books.Book, p: Books.Book -> bool)
    requires p(x) && !p(y)
    ensures Filter([x, y], p) == [x]
  {
    assert [x, y][1..] == [y];
    assert [y][1..] == [];
  }

  /** A string in which 'm' is never followed by 'y' does not contain "mystery". */
  lemma {:induction false} NoMyMeansNoMystery(s: string)
    requires forall i :: 0 <= i < |s| - 1 ==> !(s[i] == 'm' && s[i + 1] == 'y')
    ensures !Contains(s, "mystery")
    decreases |s|
  {
    if |s| > 0 {
      NoMyMeansNoMystery(s[1..]);
    }
    if |s| >= 7 {
      assert s[..7][0] == s[0] && s[..7][1] == s[1];
    }
  }
}
