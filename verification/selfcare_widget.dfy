/**
 * The stand-alone self-care list component: a local list with a clamped
 * completion counter. Fresh ids, which the source draws from `uuidv4`, are
 * supplied by the caller.
 */
module SelfCareWidget {
  import Percent
  import Text

  datatype Item = Item(id: string, title: string, description: string)

  datatype Widget = Widget(items: seq<Item>, counter: int, title: string, description: string)

  /** One "Meditation" entry, an unticked counter and empty inputs. */
  function Initial(id: string): (w: Widget)
    ensures |w.items| == 1 && w.items[0].id == id && w.items[0].title == "Meditation"
    ensures w.counter == 0 && w.title == "" && w.description == ""
  {
    Widget([Item(id, "Meditation", "15min of meditation in quite and calm place.")], 0, "", "")
  }

  /** The counter never exceeds the list and never drops below zero. */
  predicate CounterInRange(w: Widget) {
    0 <= w.counter <= |w.items|
  }

  /** `addActivity`: the current inputs become one new entry at the end, and the inputs are cleared. */
  function Add(w: Widget, freshId: string): (v: Widget)
    ensures |v.items| == |w.items| + 1
    ensures v.items[..|w.items|] == w.items
    ensures v.items[|w.items|] == Item(freshId, w.title, w.description)
    ensures v.counter == w.counter && v.title == "" && v.description == ""
  {
    w.(items := w.items + [Item(freshId, w.title, w.description)], title := "", description := "")
  }

  lemma AddKeepsCounterInRange(w: Widget, freshId: string)
    requires CounterInRange(w)
    ensures CounterInRange(Add(w, freshId))
  {
  }

  /** `activityStatus`: a check counts up only below the list length, an uncheck counts down only above zero. */
  function Toggle(w: Widget, checked: bool): (v: Widget)
    ensures v.items == w.items && v.title == w.title && v.description == w.description
    ensures checked ==> v.counter == (if w.counter < |w.items| then w.counter + 1 else w.counter)
    ensures !checked ==> v.counter == (if w.counter > 0 then w.counter - 1 else w.counter)
  {
    var updated :=
      if checked then (if w.counter < |w.items| then w.counter + 1 else w.counter)
      else (if w.counter > 0 then w.counter - 1 else w.counter);
    w.(counter := updated)
  }

  /** Toggling keeps the counter within the list. */
  lemma ToggleKeepsCounterInRange(w: Widget, checked: bool)
    requires CounterInRange(w)
    ensures CounterInRange(Toggle(w, checked))
  {
  }

  /** The entries without the given id, in their original order. */
  function Without(items: seq<Item>, id: string): (r: seq<Item>)
    ensures |r| <= |items|
    ensures forall i :: 0 <= i < |r| ==> r[i].id != id && r[i] in items
    ensures forall i :: 0 <= i < |items| && items[i].id != id ==> items[i] in r
    ensures forall x :: multiset(r)[x] == (if x.id == id then 0 else multiset(items)[x])
  {
    if items == [] then []
    else
      var rest := Without(items[1..], id);
      assert multiset(items) == multiset([items[0]]) + multiset(items[1..]) by {
        assert items == [items[0]] + items[1..];
      }
      if items[0].id == id then rest
      else
        assert multiset([items[0]] + rest) == multiset([items[0]]) + multiset(rest);
        [items[0]] + rest
  }

  /** `deleteActivity`: the list loses exactly the entries with that id; the counter is left alone. */
  function Delete(w: Widget, id: string): (v: Widget)
    ensures v.items == Without(w.items, id)
    ensures v.counter == w.counter && v.title == w.title && v.description == w.description
  {
    w.(items := Without(w.items, id))
  }

  /** Removing entries keeps the others in their original order: the result is a subsequence. */
  lemma {:induction false} WithoutIsSubsequence(items: seq<Item>, id: string)
    ensures IsSubsequence(Without(items, id), items)
    decreases |items|
  {
    if items != [] {
      WithoutIsSubsequence(items[1..], id);
    }
  }

  predicate IsSubsequence(a: seq<Item>, b: seq<Item>)
    decreases |b|
  {
    a == [] || (b != [] && ((a[0] == b[0] && IsSubsequence(a[1..], b[1..])) || IsSubsequence(a, b[1..])))
  }

  /** Deleting a counted entry can leave the counter above the list length. */
  lemma DeleteCanBreakCounterRange()
    ensures var w := Widget([Item("a", "t", "d")], 1, "", "");
      CounterInRange(w) && !CounterInRange(Delete(w, "a"))
  {
  }

  /**
   * The progress label: "0%" for an empty list, otherwise the decimal text of
   * `round(100 * counter / length)` followed by "%".
   */
  function ProgressLabel(w: Widget): (caption: string)
    ensures |w.items| == 0 ==> caption == "0%"
    ensures |caption| >= 2 && caption[|caption| - 1] == '%'
    ensures |w.items| > 0 && w.counter >= 0 ==>
      var digits := caption[..|caption| - 1];
      digits == Text.NatToString(Percent.RoundPercent(w.counter, |w.items|))
  {
    if |w.items| > 0 then
      var pct := Percent.RoundPercent(w.counter, |w.items|);
      var caption := Text.IntToString(pct) + "%";
      assert caption[..|caption| - 1] == Text.IntToString(pct);
      if w.counter >= 0 then
        Percent.RoundPercentNonNegative(w.counter, |w.items|);
        caption
      else caption
    else "0%"
  }

  /** While the counter is in range, the label's number lies between 0 and 100. */
  lemma ProgressLabelInRange(w: Widget)
    requires CounterInRange(w) && |w.items| > 0
    ensures 0 <= Percent.RoundPercent(w.counter, |w.items|) <= 100
  {
    Percent.RoundPercentRange(w.counter, |w.items|);
  }
}
