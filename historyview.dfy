/** The clickable move list, shown oldest-first or newest-first. */
module HistoryView {
  import opened Moves

  /** One entry of the move list: the history index it jumps to, its label, and the selection mark. */
  datatype HistoryItem = HistoryItem(move: nat, description: Description, isSelected: bool)

  /** `Array.prototype.reverse`: reverses `a` in place. */
  method Reverse<T>(a: array<T>)
    modifies a
    ensures forall k | 0 <= k < a.Length :: a[k] == old(a[a.Length - 1 - k])
  {
    var n := a.Length;
    var i := 0;
    while i < n / 2
      invariant 0 <= i <= n / 2
      invariant forall k | 0 <= k < i :: a[k] == old(a[n - 1 - k]) && a[n - 1 - k] == old(a[k])
      invariant forall k | i <= k < n - i :: a[k] == old(a[k])
    {
      a[i], a[n - 1 - i] := a[n - 1 - i], a[i];
      i := i + 1;
    }
  }

  /** The history index shown at display position p of n: p oldest-first, n-1-p newest-first. */
  function DisplayStep(n: nat, ascending: bool, p: nat): (step: nat)
    requires p < n
    ensures step < n
  {
    if ascending then p else n - 1 - p
  }

  /**
   * In either order the display mapping is one to one and its own inverse, so
   * each history index is shown at exactly one position.
   */
  lemma DisplayOrderIsOneToOne(n: nat, ascending: bool)
    ensures forall p, q | 0 <= p < q < n :: DisplayStep(n, ascending, p) != DisplayStep(n, ascending, q)
    ensures forall s | 0 <= s < n :: DisplayStep(n, ascending, DisplayStep(n, ascending, s)) == s
  {
  }

  /** The `History` component: its only state is the sort direction of the list. */
  class History {
    var sortAscending: bool

    constructor ()
      ensures sortAscending
    {
      sortAscending := true;
    }

    /** `sortHistory`: flip the sort direction. */
    method SortHistory()
      modifies this
      ensures sortAscending == !old(sortAscending)
    {
      sortAscending := !sortAscending;
    }

    /**
     * `renderHistoryItems`: copy the history, reverse the copy when sorting
     * newest-first, and map each displayed position back to its history index.
     * Every item shows the description stored at the index it jumps to, every
     * index appears once, and exactly the item of the selected step is marked.
     */
    method RenderHistoryItems(history: seq<Snapshot>, selectedStep: nat) returns (items: seq<HistoryItem>)
      ensures |items| == |history|
      ensures forall p | 0 <= p < |items| ::
                items[p].move == (if sortAscending then p else |history| - 1 - p)
      ensures forall p | 0 <= p < |items| ::
                items[p].move < |history| && items[p].description == history[items[p].move].description
      ensures forall p | 0 <= p < |items| :: items[p].isSelected <==> items[p].move == selectedStep
      ensures forall p, q | 0 <= p < q < |items| :: items[p].move != items[q].move
      ensures selectedStep < |history| ==> exists p | 0 <= p < |items| :: items[p].isSelected
    {
      var n := |history|;
      var ascending := sortAscending;
      var currentHistory := new Snapshot[n](i requires 0 <= i < n => history[i]);
      assert currentHistory[..] == history;
      if !ascending {
        Reverse(currentHistory);
      }
      var shown := currentHistory[..];
      assert forall k | 0 <= k < n :: shown[k] == history[if ascending then k else n - 1 - k];
      items := seq(n, arrayIndex requires 0 <= arrayIndex < n =>
        var stepNumber := DisplayStep(n, ascending, arrayIndex);
        HistoryItem(stepNumber, shown[arrayIndex].description, selectedStep == stepNumber));
      DisplayOrderIsOneToOne(n, ascending);
      if selectedStep < n {
        assert items[DisplayStep(n, ascending, selectedStep)].isSelected;
      }
    }
  }
}
