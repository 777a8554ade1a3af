/** Properties of the pages both handlers produce. */
module Properties {
  import opened Text
  import opened Window
  import opened Selection

  /** Filter soundness and completeness: a row is on a filtered page exactly
      when it matches and its match rank lies strictly inside the window. */
  lemma QuerySelectedIff(rows: seq<Row>, query: string, page: int, j: nat)
    ensures j in QuerySelected(rows, query, page)
        <==> j < |rows| && Matches(rows[j], query)
             && InWindow(NormalizePage(page), Rank(rows, query, j))
  {
    var p := NormalizePage(page);
    var m := MatchIndices(rows, query);
    var pos := Positions(p, |m|, 1);
    var sel := QuerySelected(rows, query, page);
    assert sel == Pick(m, pos);
    if j in sel {
      var k :| 0 <= k < |sel| && sel[k] == j;
      RankOfMatch(rows, query, pos[k]);
    }
    if j < |rows| && Matches(rows[j], query) && InWindow(p, Rank(rows, query, j)) {
      var r :| 0 <= r < |m| && m[r] == j;
      RankOfMatch(rows, query, r);
      assert OnPage(p, 1, r);
      var k :| 0 <= k < |pos| && pos[k] == r;
      assert sel[k] == j;
    }
  }

  /** No page of either handler holds more than 49 records. */
  lemma PageSizeBound(rows: seq<Row>, query: string, page: int)
    ensures |ListSelected(rows, page)| <= PageSize - 1
    ensures |QuerySelected(rows, query, page)| <= PageSize - 1
    ensures ListPage(rows, page).Page? ==> |ListPage(rows, page).items| <= PageSize - 1
    ensures QueryPage(rows, query, page).Page? ==> |QueryPage(rows, query, page).items| <= PageSize - 1
  {
  }

  /** Row 0 and every row whose index is a multiple of 50 are on no
      unfiltered page; matches whose rank is a multiple of 50 are on no
      filtered page. */
  lemma MultiplesOfFiftySkipped(rows: seq<Row>, query: string, page: int, j: nat)
    ensures j % PageSize == 0 ==> j !in ListSelected(rows, page)
    ensures j < |rows| && Rank(rows, query, j) % PageSize == 0 ==> j !in QuerySelected(rows, query, page)
  {
    QuerySelectedIff(rows, query, page, j);
    if j in ListSelected(rows, page) {
      WindowSkipsMultiples(NormalizePage(page), j);
    }
    if j in QuerySelected(rows, query, page) {
      WindowSkipsMultiples(NormalizePage(page), Rank(rows, query, j));
    }
  }

  /** Two pages that differ after normalisation share no row, in either mode. */
  lemma PagesDisjoint(rows: seq<Row>, query: string, p: int, q: int, j: nat)
    requires NormalizePage(p) != NormalizePage(q)
    ensures !(j in ListSelected(rows, p) && j in ListSelected(rows, q))
    ensures !(j in QuerySelected(rows, query, p) && j in QuerySelected(rows, query, q))
  {
    WindowsDisjoint(NormalizePage(p), NormalizePage(q), j);
    QuerySelectedIff(rows, query, p, j);
    QuerySelectedIff(rows, query, q, j);
    if j < |rows| {
      WindowsDisjoint(NormalizePage(p), NormalizePage(q), Rank(rows, query, j));
    }
  }

  /** A page whose window starts past the last row (or the last match) is empty. */
  lemma BeyondEndIsEmpty(rows: seq<Row>, query: string, page: int)
    ensures (NormalizePage(page) - 1) * PageSize + 1 >= |rows| ==> ListSelected(rows, page) == []
    ensures (NormalizePage(page) - 1) * PageSize >= |MatchIndices(rows, query)|
            ==> QuerySelected(rows, query, page) == []
  {
  }

  /** A negative page is not normalised and selects nothing; the filtered
      handler still panics on a row without a name field. */
  lemma NegativePageIsEmpty(rows: seq<Row>, query: string, page: int)
    requires page < 0
    ensures ListPage(rows, page) == Page([])
    ensures QueryPage(rows, query, page) == if AllNamed(rows) then Page([]) else Panic
  {
    assert ListSelected(rows, page) == [];
    assert QuerySelected(rows, query, page) == [];
  }

  /** Page 0 (and a page parameter with a syntax error) gives page 1. */
  lemma PageZeroIsPageOne(rows: seq<Row>, query: string)
    ensures ListPage(rows, 0) == ListPage(rows, 1)
    ensures QueryPage(rows, query, 0) == QueryPage(rows, query, 1)
  {
  }

  /** Page 1 of the unfiltered handler holds rows 1 to 49: row 0 is skipped. */
  lemma FirstPageRows(rows: seq<Row>)
    requires |rows| >= PageSize
    ensures ListSelected(rows, 1) == seq(PageSize - 1, i requires 0 <= i < PageSize - 1 => i + 1)
  {
    var s := ListSelected(rows, 1);
    var t := seq(PageSize - 1, i requires 0 <= i < PageSize - 1 => i + 1);
    assert |s| == |t|;
    forall k | 0 <= k < |s| ensures s[k] == t[k] {
      assert s[k] == Lo(1, 0) + k;
    }
  }

  /** Each output record copies columns 0, 1 and 2 of a selected row, in row order. */
  lemma OutputCopiesRows(rows: seq<Row>, query: string, page: int)
    ensures ListPage(rows, page).Page? ==> CopiesRows(ListPage(rows, page).items, rows, ListSelected(rows, page))
    ensures QueryPage(rows, query, page).Page? ==>
              CopiesRows(QueryPage(rows, query, page).items, rows, QuerySelected(rows, query, page))
  {
  }

  /** Any row with a name field matches the empty query. */
  lemma EmptyQueryMatches(row: Row)
    requires |row| >= 2
    ensures Matches(row, "")
  {
    assert Lower("") == "";
    EmptyIsSubstring(Lower(row[1]));
  }

  /** The indices 0 .. n-1 in order. */
  function Iota(n: nat): (r: seq<nat>)
    ensures |r| == n
    ensures forall i :: 0 <= i < n ==> r[i] == i
  {
    seq(n, i requires 0 <= i < n => i)
  }

  /** The empty query matches every named row, so the match list is all indices. */
  lemma {:induction false} EmptyQueryMatchesAll(rows: seq<Row>, j: nat)
    requires AllNamed(rows)
    requires j <= |rows|
    ensures MatchIndices(rows[..j], "") == Iota(j)
    decreases j
  {
    if j > 0 {
      var i := j - 1;
      EmptyQueryMatchesAll(rows, i);
      EmptyQueryMatches(rows[i]);
      MatchIndicesStep(rows, "", i);
      assert MatchIndices(rows[..j], "") == Iota(i) + [i];
      assert Iota(j) == Iota(i) + [i];
    }
  }

  /** With the empty query, a row's rank is its index plus one, so the
      filtered page holds the indices (page-1)*50 .. page*50-2, the last row
      included. Below the last row this is the unfiltered page shifted down
      by one; the last row can be on a filtered page with no row after it. */
  lemma EmptyQueryShift(rows: seq<Row>, page: int, j: nat)
    requires AllNamed(rows)
    requires j < |rows|
    ensures j in QuerySelected(rows, "", page) <==> InWindow(NormalizePage(page), j + 1)
    ensures j + 1 < |rows| ==> (j in QuerySelected(rows, "", page) <==> j + 1 in ListSelected(rows, page))
  {
    QuerySelectedIff(rows, "", page, j);
    EmptyQueryMatchesAll(rows, j);
    EmptyQueryMatches(rows[j]);
  }
}
