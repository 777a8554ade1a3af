/** Worked examples of both handlers on small concrete inputs. */
module Scenarios {
  import opened Text
  import opened Window
  import opened Selection

  /** Four rows whose names differ in case and in whether they contain "app". */
  function Fruit(): seq<Row> {
    [["1", "Apple", "kg", "2"], ["2", "apricot", "kg", "3"],
     ["3", "Banana", "kg", "1"], ["4", "APPLE PIE", "each", "5"]]
  }
  /** Matching lower-cases both sides: "Apple" and "APPLE PIE" contain
      "app", while "apricot" and "Banana" do not. */
  lemma AppleMatches()
    ensures Matches(["1", "Apple", "kg", "2"], "app")
  {
    assert Lower("app") == "app";
    assert Lower("Apple") == "apple";
  }
  lemma ApricotMisses()
    ensures !Matches(["2", "apricot", "kg", "3"], "app")
  {
    assert Lower("app") == "app";
    assert Lower("apricot") == "apricot";
    assert "apricot"[..3] != "app" by { assert "apricot"[2] != 'p'; }
  }
  lemma BananaMisses()
    ensures !Matches(["3", "Banana", "kg", "1"], "app")
  {
    assert Lower("app") == "app";
    assert Lower("Banana") == "banana";
    assert !HasSubstring("na", "app");
    assert "ana"[..3] != "app" by { assert "ana"[1] != 'p'; }
    assert "ana"[1..] == "na";
    assert !HasSubstring("ana", "app");
    assert "nana"[..3] != "app" by { assert "nana"[0] != 'a'; }
    assert "nana"[1..] == "ana";
    assert !HasSubstring("nana", "app");
    assert "anana"[..3] != "app" by { assert "anana"[1] != 'p'; }
    assert "anana"[1..] == "nana";
    assert !HasSubstring("anana", "app");
    assert "banana"[..3] != "app" by { assert "banana"[0] != 'a'; }
    assert "banana"[1..] == "anana";
  }
  lemma PieMatches()
    ensures Matches(["4", "APPLE PIE", "each", "5"], "app")
  {
    assert Lower("app") == "app";
    assert Lower("APPLE PIE") == "apple pie";
    assert "apple pie"[..3] == "app";
  }

  /** Which of the four rows match "app". */
  lemma FruitRowsMatch()
    ensures Matches(Fruit()[0], "app") && !Matches(Fruit()[1], "app")
    ensures !Matches(Fruit()[2], "app") && Matches(Fruit()[3], "app")
  {
    AppleMatches();
    ApricotMisses();
    BananaMisses();
    PieMatches();
  }

  /** Among the first three rows only row 0 matches "app". */
  lemma FruitFirstThree()
    ensures MatchIndices(Fruit()[..3], "app") == [0]
  {
    var rows := Fruit();
    FruitRowsMatch();
    assert rows[..0] == [];
    MatchIndicesStep(rows, "app", 0);
    MatchIndicesStep(rows, "app", 1);
    MatchIndicesStep(rows, "app", 2);
  }

  /** The match list of the query "app" keeps rows 0 and 3, in order. */
  lemma FruitMatchIndices()
    ensures MatchIndices(Fruit(), "app") == [0, 3]
  {
    var rows := Fruit();
    FruitFirstThree();
    FruitRowsMatch();
    MatchIndicesStep(rows, "app", 3);
    assert rows[..4] == rows;
  }

  /** Page 1 of the query "app" holds the two matches, ranks 1 and 2. */
  lemma FruitQuery()
    ensures QuerySelected(Fruit(), "app", 1) == [0, 3]
  {
    FruitMatchIndices();
    assert Positions(1, 2, 1) == [0, 1];
  }

  /** With 120 rows, page 3 of the unfiltered handler holds rows 101 to 119
      and page 4 holds nothing. */
  lemma HundredTwentyRows(rows: seq<Row>)
    requires |rows| == 120
    ensures ListSelected(rows, 3) == seq(19, i requires 0 <= i < 19 => 101 + i)
    ensures ListSelected(rows, 4) == []
  {
    var s := ListSelected(rows, 3);
    assert |s| == 19;
    forall k | 0 <= k < 19 ensures s[k] == 101 + k {
      assert s[k] == Lo(3, 0) + k;
    }
  }
}
