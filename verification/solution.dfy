/** `get_solution`: the solved grid, one letter per covered cell. */
module Solution {
  import opened Grid
  import opened Entries

  /** What writing an entry's answer needs: an across or down entry fits
      the grid and spells exactly `length` letters. Other directions are
      never written, so nothing is asked of them. */
  predicate Writable(e: Entry, width: nat, height: nat)
  {
    (IsAcross(e) || IsDown(e)) ==> Fits(e, width, height) && Spelled(e)
  }

  predicate AllWritable(es: seq<Entry>, width: nat, height: nat)
  {
    forall k :: 0 <= k < |es| ==> Writable(es[k], width, height)
  }

  /** `list(solution)`, as cells. */
  function Letters(s: string): seq<Cell>
  {
    seq(|s|, k requires 0 <= k < |s| => Letter(s[k]))
  }

  /** Writes `s` down column `col`, one letter per row from row `row`. */
  function WriteColumn(g: Grid, height: nat, width: nat, col: int, row: int, s: string): (r: Grid)
    requires IsGrid(g, height, width)
    requires 0 <= col < width && 0 <= row && row + |s| <= height
    ensures IsGrid(r, height, width)
    ensures forall i, j :: 0 <= i < height && 0 <= j < width ==>
              r[i][j] == (if j == col && row <= i < row + |s| then Letter(s[i - row]) else g[i][j])
    decreases |s|
  {
    if |s| == 0 then g
    else WriteColumn(SetCell(g, row, col, Letter(s[0])), height, width, col, row + 1, s[1..])
  }

  /** One iteration of the loop: an across answer replaces the slice of its
      row, a down answer is written one row at a time, any other direction
      is skipped. */
  function WriteEntry(g: Grid, height: nat, width: nat, e: Entry): (r: Grid)
    requires IsGrid(g, height, width)
    requires Writable(e, width, height)
    ensures IsGrid(r, height, width)
    ensures forall i, j :: 0 <= i < height && 0 <= j < width ==>
              r[i][j] == (if Covers(e, i, j) then Letter(LetterAt(e, i, j)) else g[i][j])
  {
    if IsAcross(e) then
      g[e.y := g[e.y][..e.x] + Letters(e.solution) + g[e.y][e.x + e.length..]]
    else if IsDown(e) then
      WriteColumn(g, height, width, e.x, e.y, e.solution)
    else
      g
  }

  /** The loop over the entries, first entry first. */
  function Fill(g: Grid, height: nat, width: nat, es: seq<Entry>): (r: Grid)
    requires IsGrid(g, height, width)
    requires AllWritable(es, width, height)
    ensures IsGrid(r, height, width)
    decreases |es|
  {
    if |es| == 0 then g
    else WriteEntry(Fill(g, height, width, es[..|es| - 1]), height, width, es[|es| - 1])
  }

  /** Reference for one cell of the solution grid, stated without grids:
      the letter of the last entry whose answer covers the cell, or black
      when no entry covers it. */
  function SolutionRef(es: seq<Entry>, i: int, j: int): Cell
    requires forall k :: 0 <= k < |es| && (IsAcross(es[k]) || IsDown(es[k])) ==> Spelled(es[k])
  {
    match LastIndex(es, e => Covers(e, i, j))
    case None => Black
    case Some(k) => Letter(LetterAt(es[k], i, j))
  }

  /** Filling from an all-black grid yields the reference at every cell. */
  lemma {:induction false} FillCell(g: Grid, height: nat, width: nat, es: seq<Entry>, i: int, j: int)
    requires IsGrid(g, height, width) && AllBlack(g)
    requires AllWritable(es, width, height)
    requires 0 <= i < height && 0 <= j < width
    ensures Fill(g, height, width, es)[i][j] == SolutionRef(es, i, j)
    decreases |es|
  {
    if |es| > 0 {
      var pre := es[..|es| - 1];
      var e := es[|es| - 1];
      FillCell(g, height, width, pre, i, j);
      if !Covers(e, i, j) {
        assert LastIndex(es, e => Covers(e, i, j)) == LastIndex(pre, e => Covers(e, i, j));
      }
    }
  }

  lemma FillAll(g: Grid, height: nat, width: nat, es: seq<Entry>)
    requires IsGrid(g, height, width) && AllBlack(g)
    requires AllWritable(es, width, height)
    ensures forall i, j :: 0 <= i < height && 0 <= j < width ==>
              Fill(g, height, width, es)[i][j] == SolutionRef(es, i, j)
  {
    forall i, j | 0 <= i < height && 0 <= j < width
      ensures Fill(g, height, width, es)[i][j] == SolutionRef(es, i, j)
    {
      FillCell(g, height, width, es, i, j);
    }
  }

  /** `get_solution(width, height, data)` as written: the declared width and
      height are ignored and the grid is always 15 x 15. */
  function GetSolution(width: int, height: int, es: seq<Entry>): (r: Grid)
    requires AllWritable(es, Size, Size)
    ensures IsGrid(r, Size, Size)
    ensures forall i, j :: 0 <= i < Size && 0 <= j < Size ==> r[i][j] == SolutionRef(es, i, j)
  {
    var blank := MakeBlankPuzzle(Size, Size);
    FillAll(blank, Size, Size, es);
    Fill(blank, Size, Size, es)
  }

  /** `get_solution` with the declared dimensions honoured. */
  function GetSolutionSized(width: nat, height: nat, es: seq<Entry>): (r: Grid)
    requires AllWritable(es, width, height)
    ensures IsGrid(r, height, width)
    ensures forall i, j :: 0 <= i < height && 0 <= j < width ==> r[i][j] == SolutionRef(es, i, j)
  {
    var blank := MakeBlankPuzzle(width, height);
    FillAll(blank, height, width, es);
    Fill(blank, height, width, es)
  }

  /** The as-written builder disagrees with the declared dimensions of any
      puzzle that is not 15 x 15: a 13 x 13 puzzle gets a 15-row grid whose
      last row is all black. */
  lemma ThirteenDeclaredFifteenBuilt(es: seq<Entry>)
    requires AllWritable(es, 13, 13)
    ensures AllWritable(es, Size, Size)
    ensures |GetSolution(13, 13, es)| == 15 != 13
    ensures forall j :: 0 <= j < Size ==> GetSolution(13, 13, es)[14][j] == Black
  {
    forall k | 0 <= k < |es|
      ensures Writable(es[k], Size, Size)
    {
      assert Writable(es[k], 13, 13);
    }
    var r := GetSolution(13, 13, es);
    forall j | 0 <= j < Size
      ensures r[14][j] == Black
    {
      forall k | 0 <= k < |es|
        ensures !Covers(es[k], 14, j)
      {
        assert Writable(es[k], 13, 13);
      }
      UncoveredStaysBlack(13, 13, es, 14, j);
    }
  }

  /** On a 15 x 15 puzzle the corrected builder agrees with the as-written
      builder. */
  lemma SizedAgreesOnFifteen(width: int, height: int, es: seq<Entry>)
    requires AllWritable(es, Size, Size)
    ensures GetSolutionSized(Size, Size, es) == GetSolution(width, height, es)
  {
  }

  /** The last entry, in list order, whose answer covers a cell decides it. */
  lemma LastWriterWins(width: int, height: int, es: seq<Entry>, k: int, i: int, j: int)
    requires AllWritable(es, Size, Size)
    requires 0 <= k < |es| && Covers(es[k], i, j)
    requires forall m :: k < m < |es| ==> !Covers(es[m], i, j)
    ensures 0 <= i < Size && 0 <= j < Size
    ensures GetSolution(width, height, es)[i][j] == Letter(LetterAt(es[k], i, j))
  {
    assert Writable(es[k], Size, Size);
    LastIndexIs(es, e => Covers(e, i, j), k);
    assert GetSolution(width, height, es)[i][j] == SolutionRef(es, i, j);
  }

  /** Entries agree wherever their answers cross. */
  ghost predicate Consistent(es: seq<Entry>)
    requires forall k :: 0 <= k < |es| && (IsAcross(es[k]) || IsDown(es[k])) ==> Spelled(es[k])
  {
    forall a, b, i, j :: 0 <= a < |es| && 0 <= b < |es| && Covers(es[a], i, j) && Covers(es[b], i, j) ==>
      LetterAt(es[a], i, j) == LetterAt(es[b], i, j)
  }

  /** When crossing answers agree, every across answer reads left to right
      and every down answer top to bottom in the solution grid. */
  lemma ConsistentAnswersSpelled(width: int, height: int, es: seq<Entry>)
    requires AllWritable(es, Size, Size)
    requires Consistent(es)
    ensures forall k, n :: 0 <= k < |es| && IsAcross(es[k]) && 0 <= n < es[k].length ==>
              GetSolution(width, height, es)[es[k].y][es[k].x + n] == Letter(es[k].solution[n])
    ensures forall k, n :: 0 <= k < |es| && IsDown(es[k]) && 0 <= n < es[k].length ==>
              GetSolution(width, height, es)[es[k].y + n][es[k].x] == Letter(es[k].solution[n])
  {
    var r := GetSolution(width, height, es);
    forall k, n | 0 <= k < |es| && (IsAcross(es[k]) || IsDown(es[k])) && 0 <= n < es[k].length
      ensures IsAcross(es[k]) ==> r[es[k].y][es[k].x + n] == Letter(es[k].solution[n])
      ensures IsDown(es[k]) ==> r[es[k].y + n][es[k].x] == Letter(es[k].solution[n])
    {
      var e := es[k];
      assert Writable(e, Size, Size);
      var i := if IsAcross(e) then e.y else e.y + n;
      var j := if IsAcross(e) then e.x + n else e.x;
      assert Covers(e, i, j);
      var last := LastIndex(es, e' => Covers(e', i, j));
      assert last.Some?;
      assert r[i][j] == Letter(LetterAt(es[last.value], i, j));
    }
  }

  /** A cell no answer covers stays black. */
  lemma UncoveredStaysBlack(width: int, height: int, es: seq<Entry>, i: int, j: int)
    requires AllWritable(es, Size, Size)
    requires 0 <= i < Size && 0 <= j < Size
    requires forall k :: 0 <= k < |es| ==> !Covers(es[k], i, j)
    ensures GetSolution(width, height, es)[i][j] == Black
  {
    assert LastIndex(es, e => Covers(e, i, j)).None?;
  }

  /** Filling skips an entry of unknown direction, wherever it stands. */
  lemma {:induction false} FillSkipsUnknown(g: Grid, height: nat, width: nat, pre: seq<Entry>, e: Entry, post: seq<Entry>)
    requires IsGrid(g, height, width)
    requires AllWritable(pre + [e] + post, width, height)
    requires !IsAcross(e) && !IsDown(e)
    ensures AllWritable(pre + post, width, height)
    ensures Fill(g, height, width, pre + [e] + post) == Fill(g, height, width, pre + post)
    decreases |post|
  {
    var all := pre + [e] + post;
    assert forall m :: 0 <= m < |pre + post| ==>
      (pre + post)[m] == (if m < |pre| then all[m] else all[m + 1]);
    assert AllWritable(pre + post, width, height) by {
      forall m | 0 <= m < |pre + post|
        ensures Writable((pre + post)[m], width, height)
      {
        assert Writable(all[if m < |pre| then m else m + 1], width, height);
      }
    }
    if |post| == 0 {
      assert all[..|all| - 1] == pre;
      assert pre + post == pre;
    } else {
      var post' := post[..|post| - 1];
      assert all[..|all| - 1] == pre + [e] + post';
      assert (pre + post)[..|pre + post| - 1] == pre + post';
      FillSkipsUnknown(g, height, width, pre, e, post');
    }
  }

  /** An entry whose direction is neither "across" nor "down" leaves the
      solution grid unchanged, wherever it appears in the list. */
  lemma UnknownDirectionIgnored(width: int, height: int, es: seq<Entry>, k: int)
    requires AllWritable(es, Size, Size)
    requires 0 <= k < |es| && !IsAcross(es[k]) && !IsDown(es[k])
    ensures AllWritable(es[..k] + es[k + 1..], Size, Size)
    ensures GetSolution(width, height, es) == GetSolution(width, height, es[..k] + es[k + 1..])
  {
    assert es == es[..k] + [es[k]] + es[k + 1..];
    FillSkipsUnknown(MakeBlankPuzzle(Size, Size), Size, Size, es[..k], es[k], es[k + 1..]);
  }
}
