/** What a page of either handler contains, as pure functions over the rows
    returned by the CSV reader: which rows are selected, in which order, and
    when the handler panics on a row too short to index. */
module Selection {
  import opened Text
  import opened Window

  /** One CSV record: its fields, positionally. */
  type Row = seq<string>

  /** One output record (ItemListVals). The parsed price SPP is not modelled. */
  datatype Item = Item(spc: string, spn: string, spps: string)

  /** A handler either answers with a page or panics on an index out of range. */
  datatype Outcome = Page(items: seq<Item>) | Panic

  /** A row's name field contains the query, both lower-cased. */
  predicate Matches(row: Row, query: string) {
    |row| >= 2 && HasSubstring(Lower(row[1]), Lower(query))
  }

  /** Every row has a name field: the filtered handler reads it on each row. */
  predicate AllNamed(rows: seq<Row>) {
    forall j :: 0 <= j < |rows| ==> |rows[j]| >= 2
  }

  /** Every selected row exists and has the four fields an output record reads. */
  predicate Complete(rows: seq<Row>, sel: seq<nat>) {
    forall k :: 0 <= k < |sel| ==> sel[k] < |rows| && |rows[sel[k]]| >= 4
  }

  function ToItem(row: Row): (item: Item)
    requires |row| >= 4
  {
    Item(row[0], row[1], row[2])
  }

  /** The output records of the selected rows, in selection order. */
  function Items(rows: seq<Row>, sel: seq<nat>): (items: seq<Item>)
    requires Complete(rows, sel)
  {
    seq(|sel|, k requires 0 <= k < |sel| => ToItem(rows[sel[k]]))
  }

  /** Each record copies columns 0, 1 and 2 of its row, and records follow the selection. */
  ghost predicate CopiesRows(items: seq<Item>, rows: seq<Row>, sel: seq<nat>) {
    && |items| == |sel|
    && forall k :: 0 <= k < |sel| ==>
         sel[k] < |rows| && |rows[sel[k]]| >= 3
         && items[k] == Item(rows[sel[k]][0], rows[sel[k]][1], rows[sel[k]][2])
  }

  /** The indices of the matching rows, in row order. */
  function MatchIndices(rows: seq<Row>, query: string): (m: seq<nat>)
    ensures Increasing(m)
    ensures forall i :: 0 <= i < |m| ==> m[i] < |rows| && Matches(rows[m[i]], query)
    ensures forall j :: 0 <= j < |rows| && Matches(rows[j], query) ==> j in m
    decreases |rows|
  {
    if |rows| == 0 then []
    else
      var last := |rows| - 1;
      var init := MatchIndices(rows[..last], query);
      assert forall j :: 0 <= j < last ==> rows[..last][j] == rows[j];
      init + (if Matches(rows[last], query) then [last] else [])
  }

  /** The 1-based rank among matches the filtered handler's counter reaches at row j. */
  function Rank(rows: seq<Row>, query: string, j: nat): (rank: nat)
    requires j <= |rows|
  {
    |MatchIndices(rows[..j], query)| + 1
  }

  /** Adding one row extends the match list by that row when it matches. */
  lemma MatchIndicesStep(rows: seq<Row>, query: string, i: nat)
    requires i < |rows|
    ensures MatchIndices(rows[..i + 1], query)
         == MatchIndices(rows[..i], query) + (if Matches(rows[i], query) then [i] else [])
  {
    assert rows[..i + 1][..i] == rows[..i];
  }

  /** The matches before the r-th match are exactly the first r matches. */
  lemma {:induction false} MatchPrefix(rows: seq<Row>, query: string, r: nat)
    requires r < |MatchIndices(rows, query)|
    ensures MatchIndices(rows, query)[r] <= |rows|
    ensures MatchIndices(rows[..MatchIndices(rows, query)[r]], query)
         == MatchIndices(rows, query)[..r]
    decreases |rows|
  {
    var m := MatchIndices(rows, query);
    var last := |rows| - 1;
    var init := rows[..last];
    var mi := MatchIndices(init, query);
    assert m == mi + (if Matches(rows[last], query) then [last] else []);
    if r < |mi| {
      MatchPrefix(init, query, r);
      assert init[..mi[r]] == rows[..mi[r]];
      assert m[..r] == mi[..r];
    } else {
      assert m[r] == last;
      assert m[..r] == mi;
    }
  }

  /** The r-th match (zero-based) has rank r + 1. */
  lemma RankOfMatch(rows: seq<Row>, query: string, r: nat)
    requires r < |MatchIndices(rows, query)|
    ensures MatchIndices(rows, query)[r] < |rows|
    ensures Rank(rows, query, MatchIndices(rows, query)[r]) == r + 1
  {
    MatchPrefix(rows, query, r);
  }

  /** The entries of m at the given positions. */
  function Pick(m: seq<nat>, pos: seq<nat>): (picked: seq<nat>)
    requires forall k :: 0 <= k < |pos| ==> pos[k] < |m|
  {
    seq(|pos|, k requires 0 <= k < |pos| => m[pos[k]])
  }

  /** Picking increasing positions of an increasing list keeps it increasing. */
  lemma PickIncreasing(m: seq<nat>, pos: seq<nat>)
    requires Increasing(m) && Increasing(pos)
    requires forall k :: 0 <= k < |pos| ==> pos[k] < |m|
    ensures Increasing(Pick(m, pos))
  {
    var r := Pick(m, pos);
    forall a, b | 0 <= a < b < |r| ensures r[a] < r[b] {
      assert pos[a] < pos[b];
    }
  }

  /** The entries of a match list whose 1-based rank lies in page p's window. */
  function PageOfMatches(m: seq<nat>, p: int): (sel: seq<nat>) {
    Pick(m, Positions(p, |m|, 1))
  }

  /** One more match is appended to the page exactly when its rank is in the window. */
  lemma PageOfMatchesStep(m: seq<nat>, p: int, j: nat)
    ensures PageOfMatches(m + [j], p)
         == PageOfMatches(m, p) + (if InWindow(p, |m| + 1) then [j] else [])
  {
    PositionsStep(p, |m|, 1);
    var pos := Positions(p, |m|, 1);
    var a := Pick(m + [j], pos);
    assert a == Pick(m, pos) by {
      forall k | 0 <= k < |pos| ensures a[k] == m[pos[k]] {
        assert (m + [j])[pos[k]] == m[pos[k]];
      }
    }
    if OnPage(p, 1, |m|) {
      assert Pick(m + [j], pos + [|m|]) == a + [j];
    }
  }

  /** Rows selected by the unfiltered handler: those whose zero-based index is in the window. */
  function ListSelected(rows: seq<Row>, page: int): (sel: seq<nat>)
    ensures Increasing(sel)
    ensures forall j :: j in sel <==> 0 <= j < |rows| && InWindow(NormalizePage(page), j)
  {
    Positions(NormalizePage(page), |rows|, 0)
  }

  /** Rows selected by the filtered handler: matching rows whose match rank is in the window. */
  function QuerySelected(rows: seq<Row>, query: string, page: int): (sel: seq<nat>)
    ensures Increasing(sel)
    ensures forall k :: 0 <= k < |sel| ==> sel[k] < |rows| && Matches(rows[sel[k]], query)
  {
    var m := MatchIndices(rows, query);
    PickIncreasing(m, Positions(NormalizePage(page), |m|, 1));
    PageOfMatches(m, NormalizePage(page))
  }

  /** The unfiltered handler's result: the selected rows, or a panic when one
      of them lacks a field it reads. Rows outside the window are never indexed. */
  function ListPage(rows: seq<Row>, page: int): (out: Outcome) {
    var sel := ListSelected(rows, page);
    if Complete(rows, sel) then Page(Items(rows, sel)) else Panic
  }

  /** The filtered handler's result: it reads the name of every row, and all
      four fields of the selected ones. */
  function QueryPage(rows: seq<Row>, query: string, page: int): (out: Outcome) {
    if !AllNamed(rows) then Panic
    else
      var sel := QuerySelected(rows, query, page);
      if Complete(rows, sel) then Page(Items(rows, sel)) else Panic
  }
}
