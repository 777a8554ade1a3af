/** The selection loops of the two HTTP handlers and the `contains` helper,
    written as the source iterates, and proved equal to the page
    definitions of module Selection. */
module Handlers {
  import opened Text
  import opened Window
  import opened Selection
  import Properties

  /** The row loop of PriceList: every row whose zero-based index lies in
      the window is turned into a record, in row order. */
  method PriceList(rows: seq<Row>, page: int) returns (out: Outcome)
    ensures out == ListPage(rows, page)
    ensures out.Page? ==> |out.items| < PageSize
  {
    var p := NormalizePage(page);
    var acc: seq<Item> := [];
    var jj := 0;
    while jj < |rows|
      invariant 0 <= jj <= |rows|
      invariant Complete(rows, Positions(p, jj, 0))
      invariant acc == Items(rows, Positions(p, jj, 0))
    {
      PositionsStep(p, jj, 0);
      ghost var sel := Positions(p, jj, 0);
      if InWindow(p, jj) {
        if |rows[jj]| < 4 {
          ShortRowPanics(rows, page, jj);
          return Panic;
        }
        ItemsAppend(rows, sel, jj);
        acc := acc + [ToItem(rows[jj])];
        assert Positions(p, jj + 1, 0) == sel + [jj];
      } else {
        assert Positions(p, jj + 1, 0) == sel;
      }
      jj := jj + 1;
    }
    out := Page(acc);
  }

  /** The row loop of PriceListQuery: the counter `matched` (iii in the
      source) counts matching rows only, and a match is turned into a record
      when its count lies in the window. On success the counter ends at the
      number of matching rows, whatever the page. */
  method PriceListQuery(rows: seq<Row>, query: string, page: int) returns (out: Outcome, matched: nat)
    ensures out == QueryPage(rows, query, page)
    ensures out.Page? ==> matched == |MatchIndices(rows, query)|
  {
    var p := NormalizePage(page);
    var acc: seq<Item> := [];
    matched := 0;
    var i := 0;
    while i < |rows|
      invariant 0 <= i <= |rows|
      invariant AllNamed(rows[..i])
      invariant matched == |MatchIndices(rows[..i], query)|
      invariant Complete(rows, PageOfMatches(MatchIndices(rows[..i], query), p))
      invariant acc == Items(rows, PageOfMatches(MatchIndices(rows[..i], query), p))
    {
      var row := rows[i];
      if |row| < 2 {
        assert !AllNamed(rows);
        return Panic, matched;
      }
      AllNamedStep(rows, i);
      MatchIndicesStep(rows, query, i);
      ghost var m := MatchIndices(rows[..i], query);
      ghost var sel := PageOfMatches(m, p);
      if HasSubstring(Lower(row[1]), Lower(query)) {
        PageOfMatchesStep(m, p, i);
        matched := matched + 1;
        if InWindow(p, matched) {
          if |row| < 4 {
            ShortMatchPanics(rows, query, page, i);
            return Panic, matched;
          }
          ItemsAppend(rows, sel, i);
          acc := acc + [ToItem(row)];
          assert PageOfMatches(m + [i], p) == sel + [i];
        } else {
          assert PageOfMatches(m + [i], p) == sel;
        }
        assert MatchIndices(rows[..i + 1], query) == m + [i];
      } else {
        assert MatchIndices(rows[..i + 1], query) == m;
      }
      i := i + 1;
    }
    assert rows[..i] == rows;
    out := Page(acc);
  }

  /** Appending a four-field row to a complete selection appends its record. */
  lemma ItemsAppend(rows: seq<Row>, sel: seq<nat>, j: nat)
    requires Complete(rows, sel)
    requires j < |rows| && |rows[j]| >= 4
    ensures Complete(rows, sel + [j])
    ensures Items(rows, sel + [j]) == Items(rows, sel) + [ToItem(rows[j])]
  {
  }

  /** A row with a name field keeps a named prefix named when it is appended. */
  lemma AllNamedStep(rows: seq<Row>, i: nat)
    requires i < |rows|
    requires AllNamed(rows[..i]) && |rows[i]| >= 2
    ensures AllNamed(rows[..i + 1])
  {
    assert forall j :: 0 <= j < i ==> rows[..i + 1][j] == rows[..i][j];
  }

  /** A row with fewer than four fields inside the window makes the
      unfiltered handler panic. */
  lemma ShortRowPanics(rows: seq<Row>, page: int, j: nat)
    requires j < |rows| && |rows[j]| < 4
    requires InWindow(NormalizePage(page), j)
    ensures ListPage(rows, page) == Panic
  {
    assert j in ListSelected(rows, page);
  }

  /** A matching row with fewer than four fields whose rank is in the window
      makes the filtered handler panic. */
  lemma ShortMatchPanics(rows: seq<Row>, query: string, page: int, i: nat)
    requires i < |rows| && |rows[i]| < 4
    requires Matches(rows[i], query)
    requires InWindow(NormalizePage(page), Rank(rows, query, i))
    ensures QueryPage(rows, query, page) == Panic
  {
    Properties.QuerySelectedIff(rows, query, page, i);
    assert i in QuerySelected(rows, query, page);
  }

  /** The `contains` helper: builds a set (a map to the empty value) of the
      slice's strings, then looks the item up. */
  method SliceContains(slice: seq<string>, item: string) returns (ok: bool)
    ensures ok <==> item in slice
    ensures |slice| == 0 ==> !ok
  {
    var seen: map<string, ()> := map[];
    for i := 0 to |slice|
      invariant forall s :: s in seen <==> s in slice[..i]
    {
      seen := seen[slice[i] := ()];
    }
    assert slice[..|slice|] == slice;
    ok := item in seen;
  }
}
