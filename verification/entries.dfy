/** Crossword entries and the cells each one occupies. */
module Entries {
  import opened Wrappers

  /** One clue/answer record: `number`, `direction`, `position.x` (column),
      `position.y` (row), `length`, `solution` and `clue`. The direction is
      kept as the raw string, because the grid builders compare it exactly
      with "across" and "down" while the clue index capitalises it. */
  datatype Entry = Entry(
    number: int,
    direction: string,
    x: int,
    y: int,
    length: int,
    solution: string,
    clue: string)

  predicate IsAcross(e: Entry)
  {
    e.direction == "across"
  }

  predicate IsDown(e: Entry)
  {
    e.direction == "down"
  }

  /** The entry's start cell lies in a `height` x `width` grid, it has at
      least one cell, and an across (down) entry's span ends inside its row
      (column). Every entry's start cell is stamped with its number, so the
      start must be in the grid whatever the direction. */
  predicate Fits(e: Entry, width: nat, height: nat)
  {
    && 0 <= e.x < width
    && 0 <= e.y < height
    && 1 <= e.length
    && (IsAcross(e) ==> e.x + e.length <= width)
    && (IsDown(e) ==> e.y + e.length <= height)
  }

  /** The answer has exactly one letter per cell. */
  predicate Spelled(e: Entry)
  {
    |e.solution| == e.length
  }

  predicate StartsAt(e: Entry, i: int, j: int)
  {
    e.y == i && e.x == j
  }

  /** The cells after the start of an across entry. */
  predicate AcrossInterior(e: Entry, i: int, j: int)
  {
    IsAcross(e) && i == e.y && e.x < j < e.x + e.length
  }

  /** The cells below the start of a down entry. */
  predicate DownInterior(e: Entry, i: int, j: int)
  {
    IsDown(e) && j == e.x && e.y < i < e.y + e.length
  }

  predicate Interior(e: Entry, i: int, j: int)
  {
    AcrossInterior(e, i, j) || DownInterior(e, i, j)
  }

  /** The cells an entry's answer is written into. */
  predicate Covers(e: Entry, i: int, j: int)
  {
    || (IsAcross(e) && i == e.y && e.x <= j < e.x + e.length)
    || (IsDown(e) && j == e.x && e.y <= i < e.y + e.length)
  }

  /** The letter an entry's answer puts in a cell it covers. */
  function LetterAt(e: Entry, i: int, j: int): char
    requires Covers(e, i, j) && Spelled(e)
  {
    if IsAcross(e) then e.solution[j - e.x] else e.solution[i - e.y]
  }

  /** The index of the last entry satisfying `p`, or None if none does. */
  function LastIndex(es: seq<Entry>, p: Entry -> bool): (r: Option<nat>)
    ensures r.None? <==> forall k :: 0 <= k < |es| ==> !p(es[k])
    ensures r.Some? ==> r.value < |es| && p(es[r.value])
    ensures r.Some? ==> forall k :: r.value < k < |es| ==> !p(es[k])
    decreases |es|
  {
    if |es| == 0 then None
    else if p(es[|es| - 1]) then Some(|es| - 1)
    else LastIndex(es[..|es| - 1], p)
  }

  /** An entry satisfying `p` with none after it that does is the last one. */
  lemma LastIndexIs(es: seq<Entry>, p: Entry -> bool, k: int)
    requires 0 <= k < |es| && p(es[k])
    requires forall m :: k < m < |es| ==> !p(es[m])
    ensures LastIndex(es, p) == Some(k)
  {
    var last := LastIndex(es, p);
    assert last.Some?;
    assert !(last.value < k);
  }

  /** The last entry satisfying `p`, or None if none does. */
  function LastWhere(es: seq<Entry>, p: Entry -> bool): Option<Entry>
  {
    match LastIndex(es, p)
    case None => None
    case Some(k) => Some(es[k])
  }

  /** An entry that fails `p` never decides which entry is the last to
      satisfy `p`, wherever it stands in the list. */
  lemma {:induction false} LastWhereSkips(pre: seq<Entry>, e: Entry, post: seq<Entry>, p: Entry -> bool)
    requires !p(e)
    ensures LastWhere(pre + [e] + post, p) == LastWhere(pre + post, p)
    decreases |post|
  {
    var all := pre + [e] + post;
    if |post| == 0 {
      assert all[..|all| - 1] == pre;
      assert pre + post == pre;
    } else {
      var post' := post[..|post| - 1];
      assert all[..|all| - 1] == pre + [e] + post';
      assert (pre + post)[..|pre + post| - 1] == pre + post';
      LastWhereSkips(pre, e, post', p);
    }
  }

  /** A cell an across or down entry's answer covers is its start or one of
      its interior cells, and nothing else. */
  lemma CoversIsStartOrInterior(e: Entry, i: int, j: int)
    requires IsAcross(e) || IsDown(e)
    requires 1 <= e.length
    ensures Covers(e, i, j) <==> StartsAt(e, i, j) || Interior(e, i, j)
  {
  }
}
