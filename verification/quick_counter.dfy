/** The quick item counter: `text.match(/TY  -/g)` and its length, used for
    the per-file count shown in the file list (src/app/page.tsx:105-106,
    134-135) and summed over the files by `countRisItems` (152-164). */
module QuickCounter {
  import opened RisText

  /** The record-type tag the counter looks for, anywhere in the text. */
  const TypeTag: string := "TY  -"

  /** The tag occurs at position `p`; nothing anchors it to a line start. */
  predicate TagAt(s: string, p: nat) {
    p + |TypeTag| <= |s| && s[p..p + |TypeTag|] == TypeTag
  }

  /** Every position where the tag occurs. */
  ghost function Occurrences(s: string): set<nat> {
    set p: nat | p <= |s| && TagAt(s, p)
  }

  /** The tag cannot overlap itself: its first character `T` appears nowhere
      else in it. */
  lemma NoSelfOverlap(s: string, i: nat, p: nat)
    requires TagAt(s, i) && i < p < i + |TypeTag|
    ensures !TagAt(s, p)
  {
    assert s[p] == s[i..i + |TypeTag|][p - i];
    if p + |TypeTag| <= |s| {
      assert s[p] == s[p..p + |TypeTag|][0];
    }
  }

  /** The positions of the successive matches of the global search started
      at `i`: each search resumes where the previous match ended. */
  function TagPositions(s: string, i: nat): (ps: seq<nat>)
    requires i <= |s|
    ensures forall j | 0 <= j < |ps| :: i <= ps[j] && TagAt(s, ps[j])
    ensures forall j | 0 <= j < |ps| - 1 :: ps[j] + |TypeTag| <= ps[j + 1]
    ensures forall p: nat | i <= p && TagAt(s, p) :: p in ps
    decreases |s| - i
  {
    if i + |TypeTag| > |s| then []
    else if TagAt(s, i) then
      var rest := TagPositions(s, i + |TypeTag|);
      forall p: nat | i < p < i + |TypeTag| ensures !TagAt(s, p) {
        NoSelfOverlap(s, i, p);
      }
      [i] + rest
    else TagPositions(s, i + 1)
  }

  /** `text.match(/TY  -/g)`: the matched strings, or `None` for `null`
      when nothing matches. */
  function MatchAll(s: string): (r: Option<seq<string>>)
    ensures r.None? <==> forall p: nat | p <= |s| :: !TagAt(s, p)
    ensures r.Some? ==> |r.value| == |Occurrences(s)| && forall j | 0 <= j < |r.value| :: r.value[j] == TypeTag
  {
    var ps := TagPositions(s, 0);
    PositionsAreOccurrences(s);
    if |ps| == 0 then None else Some(seq(|ps|, j requires 0 <= j < |ps| => s[ps[j]..ps[j] + |TypeTag|]))
  }

  /** `matches ? matches.length : 0`: the number of places the tag occurs. */
  function QuickCount(s: string): (n: nat)
    ensures n == |Occurrences(s)|
    ensures n == 0 <==> forall p: nat | p <= |s| :: !TagAt(s, p)
  {
    match MatchAll(s)
    case None =>
      PositionsAreOccurrences(s);
      0
    case Some(m) => |m|
  }

  /** The match positions list every occurrence exactly once. */
  lemma PositionsAreOccurrences(s: string)
    ensures |TagPositions(s, 0)| == |Occurrences(s)|
  {
    var ps := TagPositions(s, 0);
    assert Distinct(ps) by {
      forall i, j | 0 <= i < j < |ps| ensures ps[i] < ps[j] {
        IncreasingPositions(ps, i, j);
      }
    }
    DistinctCardinality<nat>(ps);
    forall x: nat ensures x in ps <==> x in Occurrences(s) {
      if x in ps {
        var j :| 0 <= j < |ps| && ps[j] == x;
        assert TagAt(s, ps[j]);
      }
    }
    assert (set x: nat | x in ps) == Occurrences(s);
  }

  lemma {:induction false} IncreasingPositions(ps: seq<nat>, i: nat, j: nat)
    requires forall k | 0 <= k < |ps| - 1 :: ps[k] + |TypeTag| <= ps[k + 1]
    requires i < j < |ps|
    ensures ps[i] < ps[j]
    decreases j - i
  {
    if i + 1 < j {
      IncreasingPositions(ps, i + 1, j);
    }
  }

  /** The sum of the per-file counts; `TotalCountBounds` states what it means. */
  function TotalCount(texts: seq<string>): nat
  {
    Total(texts, QuickCount)
  }

  /** The sum of `f` over the files, last file added last. */
  function Total(texts: seq<string>, f: string -> nat): nat
  {
    if |texts| == 0 then 0
    else Total(texts[..|texts| - 1], f) + f(texts[|texts| - 1])
  }

  /** The total is at least every file's count, and it is 0 exactly when no
      file holds the tag. */
  lemma TotalCountBounds(texts: seq<string>)
    ensures forall i | 0 <= i < |texts| :: QuickCount(texts[i]) <= TotalCount(texts)
    ensures TotalCount(texts) == 0 <==> forall i | 0 <= i < |texts| :: QuickCount(texts[i]) == 0
  {
    TotalBounds(texts, QuickCount);
  }

  /** The same two facts for any per-file measure `f`. */
  lemma {:induction false} TotalBounds(texts: seq<string>, f: string -> nat)
    ensures forall i | 0 <= i < |texts| :: f(texts[i]) <= Total(texts, f)
    ensures Total(texts, f) == 0 <==> forall i | 0 <= i < |texts| :: f(texts[i]) == 0
  {
    if |texts| > 0 {
      var init := texts[..|texts| - 1];
      var last := texts[|texts| - 1];
      TotalBounds(init, f);
      SumStep(init, last, f, Total(init, f));
      assert texts == init + [last];
    }
  }

  /** Adding the count of one more file to a sum that bounds every earlier
      count, and is 0 exactly when all of them are. */
  lemma SumStep(init: seq<string>, last: string, f: string -> nat, prev: nat)
    requires forall i | 0 <= i < |init| :: f(init[i]) <= prev
    requires prev == 0 <==> forall i | 0 <= i < |init| :: f(init[i]) == 0
    ensures forall i | 0 <= i < |init| + 1 :: f((init + [last])[i]) <= prev + f(last)
    ensures prev + f(last) == 0 <==> forall i | 0 <= i < |init| + 1 :: f((init + [last])[i]) == 0
  {
    forall i | 0 <= i < |init| + 1 ensures f((init + [last])[i]) <= prev + f(last) {
      if i < |init| {
        assert (init + [last])[i] == init[i];
      }
    }
    if prev + f(last) != 0 {
      if prev != 0 {
        var i :| 0 <= i < |init| && f(init[i]) != 0;
        assert (init + [last])[i] == init[i];
      } else {
        assert (init + [last])[|init|] == last;
      }
    } else {
      forall i | 0 <= i < |init| + 1 ensures f((init + [last])[i]) == 0 {
        if i < |init| {
          assert (init + [last])[i] == init[i];
        }
      }
    }
  }

  /** `countRisItems`: the files' counts added up one file at a time. */
  method CountRisItems(texts: seq<string>) returns (totalItems: nat)
    ensures totalItems == TotalCount(texts)
  {
    totalItems := 0;
    var i := 0;
    while i < |texts|
      invariant i <= |texts|
      invariant totalItems == TotalCount(texts[..i])
    {
      MatchCount(texts[i]);
      TotalCountStep(texts, i);
      match MatchAll(texts[i]) {
        case Some(m) => totalItems := totalItems + |m|;
        case None =>
      }
      i := i + 1;
    }
    assert texts[..i] == texts;
  }

  /** The length of the match list, or 0 for `null`, is the quick count. */
  lemma MatchCount(s: string)
    ensures MatchAll(s).Some? ==> |MatchAll(s).value| == QuickCount(s)
    ensures MatchAll(s).None? ==> QuickCount(s) == 0
  {
  }

  /** Adding one more file adds its quick count. */
  lemma TotalCountStep(texts: seq<string>, i: nat)
    requires i < |texts|
    ensures TotalCount(texts[..i + 1]) == TotalCount(texts[..i]) + QuickCount(texts[i])
  {
    assert texts[..i + 1][..i] == texts[..i];
  }

  /** A tag inside a line, not at its start, still counts. */
  lemma UnanchoredMatch()
    ensures QuickCount("xTY  -") == 1
  {
    var s := "xTY  -";
    assert TagAt(s, 1);
    assert s[0..|TypeTag|][0] != TypeTag[0];
    assert Occurrences(s) == {1};
  }
}
