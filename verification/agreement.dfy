/** How the two grids built from the same entries relate. */
module Agreement {
  import opened Grid
  import opened Entries
  import opened Solution
  import opened Layout

  /** Every entry runs across or down, fits the grid and spells its answer. */
  predicate WellFormed(es: seq<Entry>, width: nat, height: nat)
  {
    forall k :: 0 <= k < |es| ==> (IsAcross(es[k]) || IsDown(es[k])) && Fits(es[k], width, height) && Spelled(es[k])
  }

  /** For well-formed entries the layout grid and the solution grid have
      their black squares in the same places. */
  lemma BlackSquaresAgree(width: int, height: int, es: seq<Entry>)
    requires WellFormed(es, Size, Size)
    ensures AllFit(es, Size, Size) && AllWritable(es, Size, Size)
    ensures forall i, j :: 0 <= i < Size && 0 <= j < Size ==>
              (GetLayout(width, height, es)[i][j] == Black <==> GetSolution(width, height, es)[i][j] == Black)
  {
    var layout := GetLayout(width, height, es);
    var sol := GetSolution(width, height, es);
    forall i, j | 0 <= i < Size && 0 <= j < Size
      ensures layout[i][j] == Black <==> sol[i][j] == Black
    {
      forall k | 0 <= k < |es|
        ensures Covers(es[k], i, j) <==> StartsAt(es[k], i, j) || Interior(es[k], i, j)
      {
        CoversIsStartOrInterior(es[k], i, j);
      }
      var covers := LastIndex(es, e => Covers(e, i, j));
      var starts := LastIndex(es, e => StartsAt(e, i, j));
      if covers.Some? {
        var k := covers.value;
        if !StartsAt(es[k], i, j) {
          assert Interior(es[k], i, j);
        }
      }
      if starts.Some? {
        assert Covers(es[starts.value], i, j);
      }
      if exists k :: 0 <= k < |es| && Interior(es[k], i, j) {
        var k :| 0 <= k < |es| && Interior(es[k], i, j);
        assert Covers(es[k], i, j);
      }
    }
  }
}
