/** The `PageList` component's drag-and-drop reorder of extracted pages. */
module PageList {
  import opened Options
  import opened Splice

  /** What the drag-and-drop library reports when a drag ends: the index the card was
      taken from, and the index it was dropped at, or `None` when it was dropped
      outside the list. */
  datatype DragResult = DragResult(sourceIndex: nat, destination: Option<nat>)

  /** `handleDragEnd`: nothing to do without a destination; otherwise a fresh copy of
      the list (`Array.from`) has the card spliced out at the source index and back in
      at the destination index, and that copy becomes the new list. The method may
      modify nothing it did not allocate, so the list it was given is left as it was.
      The library only reports indices of cards in the list. */
  method HandleDragEnd<T>(pages: array<T>, result: DragResult) returns (reordered: Option<array<T>>)
    requires result.sourceIndex < pages.Length
    requires result.destination.Some? ==> result.destination.value < pages.Length
    ensures result.destination.None? <==> reordered.None?
    ensures reordered.Some? ==> fresh(reordered.value)
    ensures reordered.Some? ==>
              reordered.value[..] == Move(pages[..], result.sourceIndex, result.destination.value)
  {
    if result.destination.None? {
      return None;
    }
    var items := new T[pages.Length](k reads pages requires 0 <= k < pages.Length => pages[k]);
    assert items[..] == pages[..];
    SpliceMove(items, result.sourceIndex, result.destination.value);
    reordered := Some(items);
  }
}
