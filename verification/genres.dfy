/** The genre list edited by `GenreManagerDialog`: Add, Delete and Save, as pure
    functions on the list model's contents. */
module Genres {
  import opened Wrappers
  import opened Seqs
  import opened Text

  /** A genre as Add stores it: non-empty, no leading or trailing trimmable character. */
  predicate IsClean(g: string)
  {
    g != [] && !IsTrimmable(g[0]) && !IsTrimmable(g[|g| - 1])
  }

  /** Add: the input dialog yields a string, or null when cancelled. The trimmed input is
      appended unless it is blank or already listed (exact, case-sensitive match). */
  function AddGenre(genres: seq<string>, input: Option<string>): (r: seq<string>)
    ensures var accepted := input.Some? && Trim(input.value) != [] && Trim(input.value) !in genres;
            && (accepted ==> r == genres + [Trim(input.value)])
            && (!accepted ==> r == genres)
  {
    match input
    case None => genres
    case Some(text) =>
      var g := Trim(text);
      if g != [] && g !in genres then genres + [g] else genres
  }

  /** Add keeps the list free of duplicates. */
  lemma AddKeepsNoDuplicates(genres: seq<string>, input: Option<string>)
    requires NoDuplicates(genres)
    ensures NoDuplicates(AddGenre(genres, input))
  {
  }

  /** Everything Add stores is clean, so a list built by Add stays clean. */
  lemma AddKeepsClean(genres: seq<string>, input: Option<string>)
    requires forall g :: g in genres ==> IsClean(g)
    ensures forall g :: g in AddGenre(genres, input) ==> IsClean(g)
  {
  }

  /** The position of the first occurrence of `s`. */
  function FirstIndexOf(genres: seq<string>, s: string): (i: nat)
    requires s in genres
    ensures i < |genres| && genres[i] == s && s !in genres[..i]
    decreases |genres|
  {
    if genres[0] == s then 0
    else
      var i := FirstIndexOf(genres[1..], s) + 1;
      assert genres[..i] == [genres[0]] + genres[1..][..i - 1];
      i
  }

  /** `DefaultListModel.removeElement(s)`: drop the first occurrence, if any. */
  function RemoveElement(genres: seq<string>, s: string): (r: seq<string>)
    ensures s !in genres ==> r == genres
    ensures s in genres ==> var i := FirstIndexOf(genres, s); r == genres[..i] + genres[i + 1..]
  {
    if s in genres then
      var i := FirstIndexOf(genres, s);
      genres[..i] + genres[i + 1..]
    else genres
  }

  /** Removing an element removes exactly one copy of it and keeps the order of the rest. */
  lemma RemoveElementSpec(genres: seq<string>, s: string)
    ensures multiset(RemoveElement(genres, s)) == multiset(genres) - multiset{s}
    ensures IsSubsequence(RemoveElement(genres, s), genres)
  {
    if s in genres {
      var i := FirstIndexOf(genres, s);
      assert genres == genres[..i] + [s] + genres[i + 1..];
      DropOneIsSubsequence(genres, i);
    } else {
      SubsequenceRefl(genres);
      assert multiset(genres)[s] == 0;
    }
  }

  lemma {:induction false} DropOneIsSubsequence(s: seq<string>, i: nat)
    requires i < |s|
    ensures IsSubsequence(s[..i] + s[i + 1..], s)
    decreases i
  {
    if i == 0 {
      assert s[..0] + s[1..] == s[1..];
      SubsequenceRefl(s[1..]);
    } else {
      DropOneIsSubsequence(s[1..], i - 1);
      var r := s[..i] + s[i + 1..];
      assert r[0] == s[0];
      assert r[1..] == s[1..][..i - 1] + s[1..][i..];
    }
  }

  /** Delete: remove each selected value in turn. */
  function DeleteGenres(genres: seq<string>, selected: seq<string>): (r: seq<string>)
    ensures multiset(r) == multiset(genres) - multiset(selected)
    ensures IsSubsequence(r, genres)
    decreases |selected|
  {
    if |selected| == 0 then
      SubsequenceRefl(genres);
      genres
    else
      var once := RemoveElement(genres, selected[0]);
      RemoveElementSpec(genres, selected[0]);
      var r := DeleteGenres(once, selected[1..]);
      DifferenceInTurn(genres, once, r, selected);
      SubsequenceTrans(r, once, genres);
      r
  }

  /** Removing the first selected value, then the rest, removes them all. */
  lemma DifferenceInTurn(genres: seq<string>, once: seq<string>, r: seq<string>, selected: seq<string>)
    requires |selected| > 0
    requires multiset(once) == multiset(genres) - multiset{selected[0]}
    requires multiset(r) == multiset(once) - multiset(selected[1..])
    ensures multiset(r) == multiset(genres) - multiset(selected)
  {
    assert selected == [selected[0]] + selected[1..];
    assert multiset(selected) == multiset{selected[0]} + multiset(selected[1..]);
  }

  /** The reference for Delete on a list with repeats: scanning from the front, a value
      is dropped while its budget in `counts` lasts, so the earliest copies go and the
      later ones stay. */
  function DropEarliest(genres: seq<string>, counts: multiset<string>): seq<string>
    decreases |genres|
  {
    if |genres| == 0 then []
    else if genres[0] in counts then DropEarliest(genres[1..], counts - multiset{genres[0]})
    else [genres[0]] + DropEarliest(genres[1..], counts)
  }

  /** Delete removes, for each value, its earliest copies: as many as the value is
      selected, or all of them if there are fewer. */
  lemma {:induction false} DeleteDropsEarliest(genres: seq<string>, selected: seq<string>)
    ensures DeleteGenres(genres, selected) == DropEarliest(genres, multiset(selected))
    decreases |selected|
  {
    if |selected| == 0 {
      DropNothing(genres);
    } else {
      var head, tail := selected[0], selected[1..];
      assert DeleteGenres(genres, selected) == DeleteGenres(RemoveElement(genres, head), tail);
      DeleteDropsEarliest(RemoveElement(genres, head), tail);
      DropAfterRemove(genres, head, multiset(tail));
      assert multiset(selected) == multiset(tail) + multiset{head} by {
        assert selected == [head] + tail;
      }
    }
  }

  /** With `["A", "B", "A"]` listed, deleting `"A"` removes the first copy. */
  lemma DeleteFirstCopyExample()
    ensures DeleteGenres(["A", "B", "A"], ["A"]) == ["B", "A"]
  {
    DeleteDropsEarliest(["A", "B", "A"], ["A"]);
    var budget := multiset{"A"};
    assert DropEarliest(["A", "B", "A"], budget) == DropEarliest(["B", "A"], multiset{});
    DropNothing(["B", "A"]);
  }

  lemma {:induction false} DropNothing(genres: seq<string>)
    ensures DropEarliest(genres, multiset{}) == genres
    decreases |genres|
  {
    if |genres| > 0 {
      DropNothing(genres[1..]);
      assert genres == [genres[0]] + genres[1..];
    }
  }

  /** Removing one copy of `s` first is the same as one more unit of budget for `s`. */
  lemma {:induction false} DropAfterRemove(genres: seq<string>, s: string, counts: multiset<string>)
    ensures DropEarliest(RemoveElement(genres, s), counts) == DropEarliest(genres, counts + multiset{s})
    decreases |genres|
  {
    if |genres| > 0 {
      var g0, rest := genres[0], genres[1..];
      if g0 == s {
        assert RemoveElement(genres, s) == rest;
        assert counts + multiset{s} - multiset{s} == counts;
      } else {
        RemoveLater(genres, s);
        var removed := RemoveElement(rest, s);
        assert ([g0] + removed)[0] == g0 && ([g0] + removed)[1..] == removed;
        if g0 in counts {
          DropAfterRemove(rest, s, counts - multiset{g0});
          assert counts - multiset{g0} + multiset{s} == counts + multiset{s} - multiset{g0};
        } else {
          DropAfterRemove(rest, s, counts);
        }
      }
    }
  }

  /** Removing a value that is not at the front keeps the front. */
  lemma RemoveLater(genres: seq<string>, s: string)
    requires |genres| > 0 && genres[0] != s
    ensures RemoveElement(genres, s) == [genres[0]] + RemoveElement(genres[1..], s)
  {
    var rest := genres[1..];
    if s in genres {
      assert s in rest;
      var j := FirstIndexOf(rest, s);
      assert FirstIndexOf(genres, s) == j + 1;
      assert genres[..j + 1] + genres[j + 2..] == [genres[0]] + (rest[..j] + rest[j + 1..]);
    } else {
      assert s !in rest;
    }
  }

  /** In a duplicate-free list, Delete removes every selected value and nothing else. */
  lemma DeleteRemovesSelected(genres: seq<string>, selected: seq<string>)
    requires NoDuplicates(genres)
    ensures forall s :: s in selected ==> s !in DeleteGenres(genres, selected)
    ensures forall g :: g in genres && g !in selected ==> g in DeleteGenres(genres, selected)
    ensures NoDuplicates(DeleteGenres(genres, selected))
  {
    var r := DeleteGenres(genres, selected);
    forall s | s in selected ensures s !in r {
      AtMostOnce(genres, s);
      SelectedRemoved(genres, selected, s);
    }
    forall g | g in genres && g !in selected ensures g in r {
      UnselectedKept(genres, selected, g);
    }
    SubsequenceNoDuplicates(r, genres);
  }

  lemma SelectedRemoved(genres: seq<string>, selected: seq<string>, s: string)
    requires s in selected && multiset(genres)[s] <= 1
    ensures s !in DeleteGenres(genres, selected)
  {
    assert multiset(selected)[s] >= 1;
    assert multiset(DeleteGenres(genres, selected))[s] == 0;
  }

  lemma UnselectedKept(genres: seq<string>, selected: seq<string>, g: string)
    requires g in genres && g !in selected
    ensures g in DeleteGenres(genres, selected)
  {
    assert multiset(genres)[g] >= 1;
    assert multiset(selected)[g] == 0;
    assert multiset(DeleteGenres(genres, selected))[g] >= 1;
  }

  lemma {:induction false} AtMostOnce(genres: seq<string>, s: string)
    requires NoDuplicates(genres)
    ensures multiset(genres)[s] <= 1
    decreases |genres|
  {
    if |genres| > 0 {
      assert genres == [genres[0]] + genres[1..];
      assert NoDuplicates(genres[1..]) by {
        forall i, j | 0 <= i < j < |genres[1..]| ensures genres[1..][i] != genres[1..][j] {
          assert genres[1..][i] == genres[i + 1] && genres[1..][j] == genres[j + 1];
        }
      }
      AtMostOnce(genres[1..], s);
      if genres[0] == s {
        assert s !in genres[1..] by {
          forall j | 0 <= j < |genres[1..]| ensures genres[1..][j] != s {
            assert genres[1..][j] == genres[j + 1];
          }
        }
      }
    }
  }

  /** The confirmation Save always shows once the writer returns. */
  const GenresSaved: string := "Genres saved successfully."

  /** Save: copy the list model's entries, in order, into the list handed to the writer,
      then show the confirmation. */
  method Save(genres: seq<string>) returns (updated: seq<string>, message: string)
    ensures updated == genres
    ensures message == GenresSaved
  {
    updated := [];
    var i := 0;
    while i < |genres|
      invariant 0 <= i <= |genres|
      invariant updated == genres[..i]
    {
      updated := updated + [genres[i]];
      i := i + 1;
    }
    message := GenresSaved;
  }
}
