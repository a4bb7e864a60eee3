/** `get_layout`: the blank numbered grid, built in an across pass and
    then a down pass over the same entries. */
module Layout {
  import opened Wrappers
  import opened Grid
  import opened Entries

  predicate AllFit(es: seq<Entry>, width: nat, height: nat)
  {
    forall k :: 0 <= k < |es| ==> Fits(es[k], width, height)
  }

  /** `[0] * n`. */
  function Empties(n: nat): seq<Cell>
  {
    seq(n, _ => Empty)
  }

  /** One iteration of the across pass: stamp the entry's number at its
      start, then, for an across entry only, clear the rest of its span to
      0 whatever was there before. */
  function AcrossStep(g: Grid, height: nat, width: nat, e: Entry): (r: Grid)
    requires IsGrid(g, height, width)
    requires Fits(e, width, height)
    ensures IsGrid(r, height, width)
    ensures forall i, j :: 0 <= i < height && 0 <= j < width ==>
              r[i][j] == (if StartsAt(e, i, j) then Num(e.number)
                          else if AcrossInterior(e, i, j) then Empty
                          else g[i][j])
  {
    var s := SetCell(g, e.y, e.x, Num(e.number));
    if IsAcross(e) then
      s[e.y := s[e.y][..e.x + 1] + Empties(e.length - 1) + s[e.y][e.x + e.length..]]
    else
      s
  }

  /** The across pass, first entry first. */
  function AcrossPass(g: Grid, height: nat, width: nat, es: seq<Entry>): (r: Grid)
    requires IsGrid(g, height, width)
    requires AllFit(es, width, height)
    ensures IsGrid(r, height, width)
    decreases |es|
  {
    if |es| == 0 then g
    else AcrossStep(AcrossPass(g, height, width, es[..|es| - 1]), height, width, es[|es| - 1])
  }

  /** Clears the `n` cells of column `col` from row `row` on, but only those
      that are still black. */
  function ClearColumn(g: Grid, height: nat, width: nat, col: int, row: int, n: nat): (r: Grid)
    requires IsGrid(g, height, width)
    requires 0 <= col < width && 0 <= row && row + n <= height
    ensures IsGrid(r, height, width)
    ensures forall i, j :: 0 <= i < height && 0 <= j < width ==>
              r[i][j] == (if j == col && row <= i < row + n && g[i][j] == Black then Empty else g[i][j])
    decreases n
  {
    if n == 0 then g
    else
      var g' := if g[row][col] == Black then SetCell(g, row, col, Empty) else g;
      ClearColumn(g', height, width, col, row + 1, n - 1)
  }

  /** One iteration of the down pass: stamp the entry's number at its start
      again, then, for a down entry only, turn the still-black cells of the
      rest of its span into 0. */
  function DownStep(g: Grid, height: nat, width: nat, e: Entry): (r: Grid)
    requires IsGrid(g, height, width)
    requires Fits(e, width, height)
    ensures IsGrid(r, height, width)
    ensures forall i, j :: 0 <= i < height && 0 <= j < width ==>
              r[i][j] == (if StartsAt(e, i, j) then Num(e.number)
                          else if DownInterior(e, i, j) && g[i][j] == Black then Empty
                          else g[i][j])
  {
    var s := SetCell(g, e.y, e.x, Num(e.number));
    if IsDown(e) then ClearColumn(s, height, width, e.x, e.y + 1, e.length - 1) else s
  }

  /** The down pass, first entry first. */
  function DownPass(g: Grid, height: nat, width: nat, es: seq<Entry>): (r: Grid)
    requires IsGrid(g, height, width)
    requires AllFit(es, width, height)
    ensures IsGrid(r, height, width)
    decreases |es|
  {
    if |es| == 0 then g
    else DownStep(DownPass(g, height, width, es[..|es| - 1]), height, width, es[|es| - 1])
  }

  /** The number of the last entry, in list order, that starts at a cell. */
  function StartNumber(es: seq<Entry>, i: int, j: int): Option<int>
  {
    match LastWhere(es, e => StartsAt(e, i, j))
    case None => None
    case Some(e) => Some(e.number)
  }

  /** Reference for one cell of the layout grid, stated without grids or
      passes: the number of the last entry starting there; otherwise 0 if
      the cell is inside some across or down entry; otherwise black. */
  function LayoutRef(es: seq<Entry>, i: int, j: int): Cell
  {
    match StartNumber(es, i, j)
    case Some(n) => Num(n)
    case None => if exists k :: 0 <= k < |es| && Interior(es[k], i, j) then Empty else Black
  }

  /** After the across pass a cell holds what the last entry touching it
      left: its number at its start, 0 inside an across span. */
  lemma {:induction false} AcrossPassCell(g: Grid, height: nat, width: nat, es: seq<Entry>, i: int, j: int)
    requires IsGrid(g, height, width)
    requires AllFit(es, width, height)
    requires 0 <= i < height && 0 <= j < width
    ensures AcrossPass(g, height, width, es)[i][j] ==
              match LastIndex(es, e => StartsAt(e, i, j) || AcrossInterior(e, i, j))
              case None => g[i][j]
              case Some(k) => if StartsAt(es[k], i, j) then Num(es[k].number) else Empty
    decreases |es|
  {
    if |es| > 0 {
      var pre := es[..|es| - 1];
      var e := es[|es| - 1];
      AcrossPassCell(g, height, width, pre, i, j);
      if !(StartsAt(e, i, j) || AcrossInterior(e, i, j)) {
        assert LastIndex(es, e => StartsAt(e, i, j) || AcrossInterior(e, i, j))
            == LastIndex(pre, e => StartsAt(e, i, j) || AcrossInterior(e, i, j));
      }
    }
  }

  /** Some entry of a non-empty list has a cell in its down interior exactly
      when some entry before the last one does, or the last one does. */
  lemma DownInteriorSnoc(es: seq<Entry>, pre: seq<Entry>, i: int, j: int)
    requires |es| > 0 && pre == es[..|es| - 1]
    ensures (exists k :: 0 <= k < |es| && DownInterior(es[k], i, j)) <==>
            (exists k :: 0 <= k < |pre| && DownInterior(pre[k], i, j)) || DownInterior(es[|es| - 1], i, j)
  {
    if exists k :: 0 <= k < |es| && DownInterior(es[k], i, j) {
      var k :| 0 <= k < |es| && DownInterior(es[k], i, j);
      if k < |pre| {
        assert pre[k] == es[k];
      }
    }
    if exists k :: 0 <= k < |pre| && DownInterior(pre[k], i, j) {
      var k :| 0 <= k < |pre| && DownInterior(pre[k], i, j);
      assert es[k] == pre[k];
    }
  }

  /** After the down pass every start cell holds the number of the last
      entry starting there; any other cell keeps its value, except that a
      black cell inside a down entry becomes 0. */
  lemma {:induction false} DownPassCell(g: Grid, height: nat, width: nat, es: seq<Entry>, i: int, j: int)
    requires IsGrid(g, height, width)
    requires AllFit(es, width, height)
    requires 0 <= i < height && 0 <= j < width
    ensures DownPass(g, height, width, es)[i][j] ==
              match StartNumber(es, i, j)
              case Some(n) => Num(n)
              case None =>
                if g[i][j] == Black && exists k :: 0 <= k < |es| && DownInterior(es[k], i, j)
                then Empty else g[i][j]
    decreases |es|
  {
    if |es| > 0 {
      var pre := es[..|es| - 1];
      var e := es[|es| - 1];
      DownPassCell(g, height, width, pre, i, j);
      if !StartsAt(e, i, j) {
        assert LastIndex(es, e => StartsAt(e, i, j)) == LastIndex(pre, e => StartsAt(e, i, j));
        DownInteriorSnoc(es, pre, i, j);
      }
    }
  }

  /** Both passes over the same entries from an all-black grid give the
      reference at every cell. */
  lemma LayoutCell(g: Grid, height: nat, width: nat, es: seq<Entry>, i: int, j: int)
    requires IsGrid(g, height, width) && AllBlack(g)
    requires AllFit(es, width, height)
    requires 0 <= i < height && 0 <= j < width
    ensures DownPass(AcrossPass(g, height, width, es), height, width, es)[i][j] == LayoutRef(es, i, j)
  {
    var a := AcrossPass(g, height, width, es);
    AcrossPassCell(g, height, width, es, i, j);
    DownPassCell(a, height, width, es, i, j);
    var touch := LastIndex(es, e => StartsAt(e, i, j) || AcrossInterior(e, i, j));
    if StartNumber(es, i, j).None? {
      assert forall k :: 0 <= k < |es| ==> !StartsAt(es[k], i, j);
      if touch.Some? {
        assert AcrossInterior(es[touch.value], i, j);
      } else {
        assert forall k :: 0 <= k < |es| ==> !AcrossInterior(es[k], i, j);
      }
    }
  }

  lemma LayoutAll(g: Grid, height: nat, width: nat, es: seq<Entry>)
    requires IsGrid(g, height, width) && AllBlack(g)
    requires AllFit(es, width, height)
    ensures forall i, j :: 0 <= i < height && 0 <= j < width ==>
              DownPass(AcrossPass(g, height, width, es), height, width, es)[i][j] == LayoutRef(es, i, j)
  {
    forall i, j | 0 <= i < height && 0 <= j < width
      ensures DownPass(AcrossPass(g, height, width, es), height, width, es)[i][j] == LayoutRef(es, i, j)
    {
      LayoutCell(g, height, width, es, i, j);
    }
  }

  /** `get_layout(width, height, data)` as written: the declared width and
      height are ignored and the grid is always 15 x 15. */
  function GetLayout(width: int, height: int, es: seq<Entry>): (r: Grid)
    requires AllFit(es, Size, Size)
    ensures IsGrid(r, Size, Size)
    ensures forall i, j :: 0 <= i < Size && 0 <= j < Size ==> r[i][j] == LayoutRef(es, i, j)
  {
    var blank := MakeBlankPuzzle(Size, Size);
    LayoutAll(blank, Size, Size, es);
    DownPass(AcrossPass(blank, Size, Size, es), Size, Size, es)
  }

  /** `get_layout` with the declared dimensions honoured. */
  function GetLayoutSized(width: nat, height: nat, es: seq<Entry>): (r: Grid)
    requires AllFit(es, width, height)
    ensures IsGrid(r, height, width)
    ensures forall i, j :: 0 <= i < height && 0 <= j < width ==> r[i][j] == LayoutRef(es, i, j)
  {
    var blank := MakeBlankPuzzle(width, height);
    LayoutAll(blank, height, width, es);
    DownPass(AcrossPass(blank, height, width, es), height, width, es)
  }

  /** Every entry's start cell ends up holding a clue number, never black
      and never a cleared 0; it is the number of the last entry, in list
      order, that starts there. */
  lemma StartCellsNumbered(width: int, height: int, es: seq<Entry>)
    requires AllFit(es, Size, Size)
    ensures forall k :: 0 <= k < |es| ==>
              0 <= es[k].y < Size && 0 <= es[k].x < Size && GetLayout(width, height, es)[es[k].y][es[k].x].Num?
    ensures forall k :: 0 <= k < |es| && (forall m :: k < m < |es| ==> !StartsAt(es[m], es[k].y, es[k].x)) ==>
              GetLayout(width, height, es)[es[k].y][es[k].x] == Num(es[k].number)
  {
    var r: Grid := GetLayout(width, height, es);
    forall k | 0 <= k < |es|
      ensures 0 <= es[k].y < Size && 0 <= es[k].x < Size && r[es[k].y][es[k].x].Num?
      ensures (forall m :: k < m < |es| ==> !StartsAt(es[m], es[k].y, es[k].x)) ==>
                r[es[k].y][es[k].x] == Num(es[k].number)
    {
      var i, j := es[k].y, es[k].x;
      assert Fits(es[k], Size, Size);
      var p := e => StartsAt(e, i, j);
      assert p(es[k]);
    }
  }

  /** No cell after the start of an across or down entry is left black;
      where no entry starts, it is the unnumbered 0. */
  lemma InteriorsNeverBlack(width: int, height: int, es: seq<Entry>)
    requires AllFit(es, Size, Size)
    ensures forall k, i, j :: 0 <= k < |es| && Interior(es[k], i, j) ==>
              0 <= i < Size && 0 <= j < Size && GetLayout(width, height, es)[i][j] != Black
    ensures forall k, i, j :: 0 <= k < |es| && Interior(es[k], i, j) && StartNumber(es, i, j).None? ==>
              0 <= i < Size && 0 <= j < Size && GetLayout(width, height, es)[i][j] == Empty
  {
    forall k, i, j | 0 <= k < |es| && Interior(es[k], i, j)
      ensures 0 <= i < Size && 0 <= j < Size
    {
      assert Fits(es[k], Size, Size);
    }
  }

  /** A cell that is no entry's start and lies inside no across or down
      entry stays black. */
  lemma UntouchedStaysBlack(width: int, height: int, es: seq<Entry>, i: int, j: int)
    requires AllFit(es, Size, Size)
    requires 0 <= i < Size && 0 <= j < Size
    requires forall k :: 0 <= k < |es| ==> !StartsAt(es[k], i, j) && !Interior(es[k], i, j)
    ensures GetLayout(width, height, es)[i][j] == Black
  {
    assert LastIndex(es, e => StartsAt(e, i, j)).None?;
  }

  /** Away from start cells, the down pass never overwrites a 0 or a number
      the across pass left: the only change it makes is black to 0. */
  lemma DownPassFillsOnlyBlack(g: Grid, height: nat, width: nat, es: seq<Entry>, i: int, j: int)
    requires IsGrid(g, height, width)
    requires AllFit(es, width, height)
    requires 0 <= i < height && 0 <= j < width
    requires forall k :: 0 <= k < |es| ==> !StartsAt(es[k], i, j)
    ensures g[i][j] != Black ==> DownPass(g, height, width, es)[i][j] == g[i][j]
    ensures g[i][j] == Black ==> DownPass(g, height, width, es)[i][j] in {Black, Empty}
  {
    DownPassCell(g, height, width, es, i, j);
    assert LastIndex(es, e => StartsAt(e, i, j)).None?;
  }

  /** Run after the across pass from an all-black grid, the down pass never
      changes a number, anywhere; a 0 changes only at a start cell, where
      the down pass restores the number the across pass overwrote. */
  lemma DownPassKeepsNumbers(g: Grid, height: nat, width: nat, es: seq<Entry>, i: int, j: int)
    requires IsGrid(g, height, width) && AllBlack(g)
    requires AllFit(es, width, height)
    requires 0 <= i < height && 0 <= j < width
    ensures AcrossPass(g, height, width, es)[i][j].Num? ==>
              DownPass(AcrossPass(g, height, width, es), height, width, es)[i][j] == AcrossPass(g, height, width, es)[i][j]
    ensures AcrossPass(g, height, width, es)[i][j] == Empty ==>
              DownPass(AcrossPass(g, height, width, es), height, width, es)[i][j] == Empty || StartNumber(es, i, j).Some?
  {
    var a := AcrossPass(g, height, width, es);
    AcrossPassCell(g, height, width, es, i, j);
    DownPassCell(a, height, width, es, i, j);
    var touch := LastIndex(es, e => StartsAt(e, i, j) || AcrossInterior(e, i, j));
    if touch.Some? && StartsAt(es[touch.value], i, j) {
      LastIndexIs(es, e => StartsAt(e, i, j), touch.value);
    }
  }

  /** Removing an entry that has no interior at a cell does not change
      whether some entry has that cell in its interior. */
  lemma InteriorSkips(es: seq<Entry>, k: int, rest: seq<Entry>, i: int, j: int)
    requires 0 <= k < |es| && !Interior(es[k], i, j)
    requires rest == es[..k] + es[k + 1..]
    ensures (exists m :: 0 <= m < |es| && Interior(es[m], i, j)) <==>
            (exists m :: 0 <= m < |rest| && Interior(rest[m], i, j))
  {
    if exists m :: 0 <= m < |es| && Interior(es[m], i, j) {
      var m :| 0 <= m < |es| && Interior(es[m], i, j);
      var m' := if m < k then m else m - 1;
      assert rest[m'] == es[m];
    }
    if exists m :: 0 <= m < |rest| && Interior(rest[m], i, j) {
      var m :| 0 <= m < |rest| && Interior(rest[m], i, j);
      assert rest[m] == es[if m < k then m else m + 1];
    }
  }

  /** An entry whose direction is neither "across" nor "down" leaves no
      trace on the layout grid except its number at its start cell. */
  lemma UnknownDirectionOnlyStamps(width: int, height: int, es: seq<Entry>, k: int)
    requires AllFit(es, Size, Size)
    requires 0 <= k < |es| && !IsAcross(es[k]) && !IsDown(es[k])
    ensures AllFit(es[..k] + es[k + 1..], Size, Size)
    ensures forall i, j :: 0 <= i < Size && 0 <= j < Size && !StartsAt(es[k], i, j) ==>
              GetLayout(width, height, es)[i][j] == GetLayout(width, height, es[..k] + es[k + 1..])[i][j]
  {
    var e := es[k];
    var rest := es[..k] + es[k + 1..];
    assert AllFit(rest, Size, Size) by {
      forall m | 0 <= m < |rest|
        ensures Fits(rest[m], Size, Size)
      {
        assert rest[m] == es[if m < k then m else m + 1];
      }
    }
    assert es == es[..k] + [e] + es[k + 1..];
    forall i, j | 0 <= i < Size && 0 <= j < Size && !StartsAt(e, i, j)
      ensures LayoutRef(es, i, j) == LayoutRef(rest, i, j)
    {
      LastWhereSkips(es[..k], e, es[k + 1..], e' => StartsAt(e', i, j));
      InteriorSkips(es, k, rest, i, j);
    }
  }

  /** The as-written builder disagrees with the declared dimensions of any
      puzzle that is not 15 x 15: a 13 x 13 puzzle gets a 15 x 15 grid
      whose last row is all black. */
  lemma ThirteenDeclaredFifteenLaidOut(es: seq<Entry>)
    requires AllFit(es, 13, 13)
    ensures AllFit(es, Size, Size)
    ensures |GetLayout(13, 13, es)| == 15 != 13
    ensures forall j :: 0 <= j < Size ==> GetLayout(13, 13, es)[14][j] == Black
  {
    forall k | 0 <= k < |es|
      ensures Fits(es[k], Size, Size) && !StartsAt(es[k], 14, 0)
    {
      assert Fits(es[k], 13, 13);
    }
    forall j | 0 <= j < Size
      ensures GetLayout(13, 13, es)[14][j] == Black
    {
      forall k | 0 <= k < |es|
        ensures !StartsAt(es[k], 14, j) && !Interior(es[k], 14, j)
      {
        assert Fits(es[k], 13, 13);
      }
      UntouchedStaysBlack(13, 13, es, 14, j);
    }
  }

  /** On a 15 x 15 puzzle the corrected builder agrees with the as-written
      builder. */
  lemma SizedLayoutAgreesOnFifteen(width: int, height: int, es: seq<Entry>)
    requires AllFit(es, Size, Size)
    ensures GetLayoutSized(Size, Size, es) == GetLayout(width, height, es)
  {
  }
}
