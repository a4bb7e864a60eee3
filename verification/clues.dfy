/** `get_clues`: clue text grouped under "Across" and "Down", in input
    order. */
module Clues {
  import opened Wrappers
  import opened Entries

  /** The `[number, clue]` pair listed for one entry. */
  datatype Clue = Clue(number: int, text: string)

  /** The clue index: a dictionary from direction heading to clue list. */
  type ClueIndex = map<string, seq<Clue>>

  /** Looking up a heading the dictionary does not hold raises KeyError. */
  datatype ClueError = KeyError(key: string)

  /** ASCII upper-casing; other characters are left as they are. */
  function Upper(c: char): char
  {
    if 'a' <= c <= 'z' then (c as int - 32) as char else c
  }

  /** ASCII lower-casing; other characters are left as they are. */
  function Lower(c: char): char
  {
    if 'A' <= c <= 'Z' then (c as int + 32) as char else c
  }

  /** `str.capitalize`: the first character upper-cased, the rest
      lower-cased. */
  function Capitalize(s: string): (r: string)
    ensures |r| == |s|
  {
    if |s| == 0 then "" else [Upper(s[0])] + seq(|s| - 1, k requires 0 <= k < |s| - 1 => Lower(s[k + 1]))
  }

  predicate SameIgnoringCase(a: string, b: string)
  {
    |a| == |b| && forall k :: 0 <= k < |a| ==> Lower(a[k]) == Lower(b[k])
  }

  /** The dictionary key an entry's clue is filed under. */
  function Label(e: Entry): string
  {
    Capitalize(e.direction)
  }

  predicate Known(heading: string)
  {
    heading == "Across" || heading == "Down"
  }

  function ClueOf(e: Entry): Clue
  {
    Clue(e.number, e.clue)
  }

  /** Reference for one list of the index: the clues of the entries filed
      under `heading`, in the order the entries come. */
  function Listed(es: seq<Entry>, heading: string): seq<Clue>
    decreases |es|
  {
    if |es| == 0 then []
    else (if Label(es[0]) == heading then [ClueOf(es[0])] else []) + Listed(es[1..], heading)
  }

  /** The clues of earlier entries come before those of later entries, so
      interleaving entries of the other direction never reorders a list. */
  lemma {:induction false} ListedAppend(a: seq<Entry>, b: seq<Entry>, heading: string)
    ensures Listed(a + b, heading) == Listed(a, heading) + Listed(b, heading)
    decreases |a|
  {
    if |a| > 0 {
      assert (a + b)[0] == a[0];
      assert (a + b)[1..] == a[1..] + b;
      ListedAppend(a[1..], b, heading);
    } else {
      assert a + b == b;
    }
  }

  /** When every entry is filed, each entry's clue lands in exactly one of
      the two lists. */
  lemma {:induction false} ListedPartition(es: seq<Entry>)
    requires forall k :: 0 <= k < |es| ==> Known(Label(es[k]))
    ensures |Listed(es, "Across")| + |Listed(es, "Down")| == |es|
    decreases |es|
  {
    if |es| > 0 {
      assert Known(Label(es[0]));
      ListedPartition(es[1..]);
    }
  }

  /** The loop of `get_clues`, first entry first. The first entry whose
      capitalised direction is neither "Across" nor "Down" aborts the whole
      index with KeyError. */
  function GetClues(es: seq<Entry>): (r: Result<ClueIndex, ClueError>)
    ensures r.Success? <==> forall k :: 0 <= k < |es| ==> Known(Label(es[k]))
    ensures r.Success? ==> r.value.Keys == {"Across", "Down"}
    ensures r.Success? ==> r.value["Across"] == Listed(es, "Across") && r.value["Down"] == Listed(es, "Down")
    ensures r.Failure? ==>
              exists k :: 0 <= k < |es| && !Known(Label(es[k])) && r.error == KeyError(Label(es[k]))
                          && forall m :: 0 <= m < k ==> Known(Label(es[m]))
    decreases |es|
  {
    if |es| == 0 then Success(map["Across" := [], "Down" := []])
    else
      var pre := es[..|es| - 1];
      var e := es[|es| - 1];
      assert es == pre + [e];
      ListedAppend(pre, [e], "Across");
      ListedAppend(pre, [e], "Down");
      match GetClues(pre)
      case Failure(err) => Failure(err)
      case Success(index) =>
        var key := Label(e);
        if key in index then Success(index[key := index[key] + [ClueOf(e)]])
        else Failure(KeyError(key))
  }

  /** On success the two lists together hold one clue per entry. */
  lemma EveryClueListedOnce(es: seq<Entry>)
    requires GetClues(es).Success?
    ensures |GetClues(es).value["Across"]| + |GetClues(es).value["Down"]| == |es|
  {
    ListedPartition(es);
  }

  /** Two directions get the same key exactly when they are equal up to
      ASCII case. */
  lemma CapitalizeIgnoresCase(a: string, b: string)
    ensures Capitalize(a) == Capitalize(b) <==> SameIgnoringCase(a, b)
  {
    if |a| == |b| && |a| > 0 {
      var ca, cb := Capitalize(a), Capitalize(b);
      if ca == cb {
        forall k | 0 <= k < |a|
          ensures Lower(a[k]) == Lower(b[k])
        {
          assert ca[k] == cb[k];
        }
      }
      if SameIgnoringCase(a, b) {
        forall k | 0 <= k < |a|
          ensures ca[k] == cb[k]
        {
          assert Lower(a[k]) == Lower(b[k]);
        }
        assert ca == cb;
      }
    }
  }

  /** The clue index files a direction under "Across" exactly when it reads
      "across" in any ASCII case, while the grid builders accept only the
      exact lower-case "across"; likewise for "Down". */
  lemma LabelIgnoresCase(e: Entry)
    ensures Label(e) == "Across" <==> SameIgnoringCase(e.direction, "across")
    ensures Label(e) == "Down" <==> SameIgnoringCase(e.direction, "down")
    ensures IsAcross(e) ==> Label(e) == "Across"
    ensures IsDown(e) ==> Label(e) == "Down"
  {
    assert Capitalize("across") == "Across";
    assert Capitalize("down") == "Down";
    CapitalizeIgnoresCase(e.direction, "across");
    CapitalizeIgnoresCase(e.direction, "down");
  }
}
