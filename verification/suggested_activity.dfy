/** The suggested-activity list's completion count and rounded progress. */
module SuggestedActivity {
  import Percent

  /** An activity as the list reads it: only the truthiness of `completed` matters. */
  datatype Suggestion = Suggestion(id: string, completed: bool)

  /** `activities.filter(a => a.completed).length`, by one pass. */
  method CompletedCount(list: seq<Suggestion>) returns (c: nat)
    ensures c <= |list|
    ensures c == |set i | 0 <= i < |list| && list[i].completed|
    ensures c == Completed(list)
  {
    c := 0;
    var i := 0;
    while i < |list|
      invariant 0 <= i <= |list|
      invariant c == Completed(list[..i])
    {
      CompletedAppend(list[..i], list[i]);
      assert list[..i + 1] == list[..i] + [list[i]];
      if list[i].completed {
        c := c + 1;
      }
      i := i + 1;
    }
    assert list[..i] == list;
    CompletedIsCardinality(list, |list|);
  }

  /** The same count as a function over the list. */
  function Completed(list: seq<Suggestion>): (c: nat)
    ensures c <= |list|
    ensures c == 0 <==> forall i :: 0 <= i < |list| ==> !list[i].completed
    ensures c == |list| <==> forall i :: 0 <= i < |list| ==> list[i].completed
  {
    if list == [] then 0 else (if list[0].completed then 1 else 0) + Completed(list[1..])
  }

  /** Counting from the front agrees with counting from the back. */
  lemma {:induction false} CompletedAppend(a: seq<Suggestion>, x: Suggestion)
    ensures Completed(a + [x]) == Completed(a) + (if x.completed then 1 else 0)
    decreases |a|
  {
    if a != [] {
      assert (a + [x])[1..] == a[1..] + [x];
      CompletedAppend(a[1..], x);
    }
  }

  /** The count of a prefix is the number of completed positions in it. */
  lemma {:induction false} CompletedIsCardinality(list: seq<Suggestion>, n: nat)
    requires n <= |list|
    ensures Completed(list[..n]) == |set k | 0 <= k < n && list[k].completed|
  {
    if n > 0 {
      CompletedIsCardinality(list, n - 1);
      assert list[..n] == list[..n - 1] + [list[n - 1]];
      CompletedAppend(list[..n - 1], list[n - 1]);
      CompletedPositionsStep(list, n);
    }
  }

  /** The completed positions below `n` are those below `n - 1`, plus `n - 1` when it is completed. */
  lemma CompletedPositionsStep(list: seq<Suggestion>, n: nat)
    requires 0 < n <= |list|
    ensures |set k | 0 <= k < n && list[k].completed| ==
      |set k | 0 <= k < n - 1 && list[k].completed| + (if list[n - 1].completed then 1 else 0)
  {
    var before := set k | 0 <= k < n - 1 && list[k].completed;
    var after := set k | 0 <= k < n && list[k].completed;
    if list[n - 1].completed {
      assert n - 1 !in before;
      assert after == before + {n - 1};
    } else {
      assert after == before;
    }
  }

  /** `progress`: `round(100 * completed / total)`, or 0 for an empty list. */
  function Progress(list: seq<Suggestion>): (p: int)
    ensures 0 <= p <= 100
    ensures list == [] ==> p == 0
    ensures list != [] ==> 2 * |list| * p <= 200 * Completed(list) + |list| < 2 * |list| * (p + 1)
  {
    if |list| > 0 then
      Percent.RoundPercentRange(Completed(list), |list|);
      Percent.RoundPercent(Completed(list), |list|)
    else 0
  }

  /** Nothing completed shows 0; everything completed shows 100. */
  lemma ProgressExtremes(list: seq<Suggestion>)
    ensures (forall i :: 0 <= i < |list| ==> !list[i].completed) ==> Progress(list) == 0
    ensures list != [] && (forall i :: 0 <= i < |list| ==> list[i].completed) ==> Progress(list) == 100
  {
    if list != [] {
      Percent.RoundPercentNone(|list|);
      Percent.RoundPercentAll(|list|);
    }
  }

  /** Completing one more activity of the same list never lowers the progress. */
  lemma ProgressMonotone(list: seq<Suggestion>, i: int)
    requires 0 <= i < |list| && !list[i].completed
    ensures Progress(list[i := list[i].(completed := true)]) >= Progress(list)
  {
    var after := list[i := list[i].(completed := true)];
    CompletedRaise(list, i);
    Percent.RoundPercentMonotone(Completed(list), Completed(after), |list|);
  }

  lemma {:induction false} CompletedRaise(list: seq<Suggestion>, i: int)
    requires 0 <= i < |list| && !list[i].completed
    ensures Completed(list[i := list[i].(completed := true)]) == Completed(list) + 1
    decreases |list|
  {
    var after := list[i := list[i].(completed := true)];
    if i > 0 {
      assert after[1..] == list[1..][i - 1 := list[i].(completed := true)];
      CompletedRaise(list[1..], i - 1);
    } else {
      assert after[1..] == list[1..];
    }
  }
}
