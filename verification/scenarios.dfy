/** Worked examples: one across entry, then an across and a down entry
    sharing their start cell. */
module Scenarios {
  import opened Wrappers
  import opened Grid
  import opened Entries
  import opened Solution
  import opened Layout
  import opened Clues

  const Cat := Entry(1, "across", 0, 0, 3, "CAT", "Feline")
  const Cog := Entry(1, "down", 0, 0, 3, "COG", "Wheel tooth")

  /** A lone across entry: its row of the layout reads 1, 0, 0 and every
      other cell is black. */
  lemma SingleAcrossLayout()
    ensures AllFit([Cat], Size, Size)
    ensures GetLayout(15, 15, [Cat])[0][..3] == [Num(1), Empty, Empty]
    ensures forall i, j :: 0 <= i < Size && 0 <= j < Size && (i > 0 || j >= 3) ==>
              GetLayout(15, 15, [Cat])[i][j] == Black
  {
    var es := [Cat];
    assert AllFit(es, Size, Size);
    var layout := GetLayout(15, 15, es);
    assert StartsAt(es[0], 0, 0) && Interior(es[0], 0, 1) && Interior(es[0], 0, 2);
    assert LastIndex(es, e => StartsAt(e, 0, 1)).None?;
    assert LastIndex(es, e => StartsAt(e, 0, 2)).None?;
    assert layout[0][..3] == [layout[0][0], layout[0][1], layout[0][2]];
    forall i, j | 0 <= i < Size && 0 <= j < Size && (i > 0 || j >= 3)
      ensures layout[i][j] == Black
    {
      assert layout[i][j] == LayoutRef(es, i, j);
      UntouchedStaysBlack(15, 15, es, i, j);
    }
  }

  /** A lone across entry: its row of the solution reads C, A, T. */
  lemma SingleAcrossSolutionRow()
    ensures AllWritable([Cat], Size, Size)
    ensures GetSolution(15, 15, [Cat])[0][..3] == [Letter('C'), Letter('A'), Letter('T')]
  {
    var es := [Cat];
    assert AllWritable(es, Size, Size);
    var sol := GetSolution(15, 15, es);
    assert Covers(es[0], 0, 0) && Covers(es[0], 0, 1) && Covers(es[0], 0, 2);
    assert sol[0][..3] == [sol[0][0], sol[0][1], sol[0][2]];
  }

  /** A lone across entry: every solution cell outside its span is black. */
  lemma SingleAcrossSolution()
    ensures AllWritable([Cat], Size, Size)
    ensures forall i, j :: 0 <= i < Size && 0 <= j < Size && (i > 0 || j >= 3) ==>
              GetSolution(15, 15, [Cat])[i][j] == Black
  {
    var es := [Cat];
    assert AllWritable(es, Size, Size);
    forall i, j | 0 <= i < Size && 0 <= j < Size && (i > 0 || j >= 3)
      ensures GetSolution(15, 15, es)[i][j] == Black
    {
      Solution.UncoveredStaysBlack(15, 15, es, i, j);
    }
  }

  /** A lone across entry's clue is the only across clue, and the down list
      is present but empty. */
  lemma SingleAcrossClues()
    ensures GetClues([Cat]) == Success(map["Across" := [Clue(1, "Feline")], "Down" := []])
  {
    var es := [Cat];
    assert Label(Cat) == "Across";
    assert Listed(es, "Across") == [Clue(1, "Feline")];
    assert Listed(es, "Down") == [];
    assert GetClues(es).Success?;
    var index := GetClues(es).value;
    var expected := map["Across" := [Clue(1, "Feline")], "Down" := []];
    assert index.Keys == expected.Keys;
    assert index == expected;
  }

  /** An across and a down entry starting at the same cell: the cell holds
      their shared letter and their shared number, not a cleared 0. */
  lemma SharedStart()
    ensures AllFit([Cat, Cog], Size, Size) && AllWritable([Cat, Cog], Size, Size)
    ensures GetSolution(15, 15, [Cat, Cog])[0][0] == Letter('C')
    ensures GetLayout(15, 15, [Cat, Cog])[0][0] == Num(1)
    ensures GetLayout(15, 15, [Cat, Cog])[1][0] == Empty
  {
    var es := [Cat, Cog];
    assert AllFit(es, Size, Size) && AllWritable(es, Size, Size);
    assert Covers(es[1], 0, 0) && StartsAt(es[1], 0, 0);
    assert Interior(es[1], 1, 0);
    assert LastIndex(es, e => StartsAt(e, 1, 0)).None?;
  }

  const Two := Entry(2, "down", 1, 0, 2, "AB", "Second")
  const One := Entry(1, "across", 0, 0, 3, "CAT", "First")

  /** A down entry listed before an across entry whose span covers its start:
      the across pass overwrites the down entry's number with 0, and the
      down pass stamps the number back, so only the final grid is sure to
      hold every start number. */
  lemma ClobberedStartRestored()
    ensures AllFit([Two, One], Size, Size)
    ensures AcrossPass(MakeBlankPuzzle(Size, Size), Size, Size, [Two, One])[0][1] == Empty
    ensures GetLayout(15, 15, [Two, One])[0][1] == Num(2)
  {
    var es := [Two, One];
    assert AllFit(es, Size, Size);
    AcrossPassCell(MakeBlankPuzzle(Size, Size), Size, Size, es, 0, 1);
    assert AcrossInterior(es[1], 0, 1) && !StartsAt(es[1], 0, 1);
    assert StartsAt(es[0], 0, 1);
  }
}
