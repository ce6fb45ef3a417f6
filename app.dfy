/** The `App` component of the page reorder tool as a state machine: the loaded pages,
    the selected ids, the output order, the drag state and the view mode, changed by
    the component's event handlers. */
module AppComponent {
  import opened Options
  import opened JsString
  import opened Splice
  import opened Selection

  /** One page of the loaded document: its id `String(i)` and its 1-based number `i`.
      The rendered preview image is not modelled. */
  datatype Page = Page(id: string, pageNumber: nat)

  /** The file the user picked, if any, with the media type the browser reports. */
  datatype FileInput = NoFile | File(mediaType: string)

  /** How a file change ended: each failure is the alert the component raises. */
  datatype LoadOutcome = Loaded | PdfJsNotReady | InvalidFile | ProcessingFailed

  /** The page list a load produces: page `k` (0-based) has id `String(k + 1)` and
      number `k + 1`. */
  ghost predicate PagesOfDocument(pages: seq<Page>) {
    forall k {:trigger pages[k]} :: 0 <= k < |pages| ==> pages[k] == Page(NatToString(k + 1), k + 1)
  }

  /** The loop of `handleFileChange` that pushes one page entry per document page,
      in ascending page order. */
  method RenderPages(numPages: nat) returns (pageImages: seq<Page>)
    ensures |pageImages| == numPages && PagesOfDocument(pageImages)
  {
    pageImages := [];
    var i := 1;
    while i <= numPages
      invariant 1 <= i <= numPages + 1
      invariant |pageImages| == i - 1 && PagesOfDocument(pageImages)
    {
      pageImages := pageImages + [Page(NatToString(i), i)];
      i := i + 1;
    }
  }

  /** In a loaded page list, a page id leads back to its page: the page at index
      `parseInt(id) - 1` has that id, and its number is `parseInt(id)`. */
  lemma {:induction false} PageOfId(pages: seq<Page>, id: string)
    requires PagesOfDocument(pages) && id in PageIds(|pages|)
    ensures ParseInt(id).Num?
    ensures var k := ParseInt(id).value - 1;
            0 <= k < |pages| && pages[k].id == id && pages[k].pageNumber == k + 1
  {
    PageNumberOfId(id, |pages|);
  }

  /** The order holds each selected id exactly once and nothing else, and every
      selected id names one of the `pageCount` loaded pages. */
  ghost predicate SelectionInvariant(selectedPages: set<string>, order: seq<string>, pageCount: nat) {
    && NoDup(order)
    && Elems(order) == selectedPages
    && forall id :: id in selectedPages ==> id in PageIds(pageCount)
  }

  /** The computation of `selectPagesByIndex`: `found` is the number of tokens that
      name a page, `selected` the set built from their ids and `unique` those ids
      without repeats, first occurrence first. */
  method ParseSelection(text: string, pageCount: nat) returns (found: nat, selected: set<string>, unique: seq<string>)
    ensures unique == IndexSelection(text, pageCount)
    ensures found == 0 <==> unique == []
    ensures SelectionInvariant(selected, unique, pageCount)
  {
    var indexes := InRange(ParseTokens(text), pageCount);
    var ids := ToIds(indexes);
    SelectionOfIndexes(text, pageCount);
    found, selected, unique := |indexes|, Elems(ids), Dedup(ids);
  }

  /** What `exportPdf` copies: output page `k` is the 0-based source page
      `parseInt(order[k]) - 1`, which is the loaded page whose id is `order[k]`. */
  ghost predicate IsPlanOf(plan: seq<nat>, pages: seq<Page>, order: seq<string>) {
    && |plan| == |order|
    && forall k :: 0 <= k < |order| ==>
         && ParseInt(order[k]) == Num(plan[k] + 1)
         && plan[k] < |pages|
         && pages[plan[k]].id == order[k]
         && pages[plan[k]].pageNumber == plan[k] + 1
  }

  /** The loop of `exportPdf` that maps each id of the order to the index of its
      source page. Every id in the order names a loaded page. */
  method PlanPages(pages: seq<Page>, order: seq<string>) returns (plan: seq<nat>)
    requires PagesOfDocument(pages)
    requires forall id :: id in order ==> id in PageIds(|pages|)
    ensures IsPlanOf(plan, pages, order)
  {
    plan := [];
    for k := 0 to |order|
      invariant |plan| == k
      invariant forall m :: 0 <= m < k ==> order[m] == NatToString(plan[m] + 1)
    {
      assert order[k] in order;
      var index := PageIndex(order[k], |pages|);
      plan := plan + [index];
    }
    PlanOfOrder(pages, order, plan);
  }

  /** `parseInt(id) - 1` for a page id: the 0-based index of the page it names. */
  method PageIndex(id: string, pageCount: nat) returns (index: nat)
    requires id in PageIds(pageCount)
    ensures index < pageCount && NatToString(index + 1) == id
  {
    PageNumberOfId(id, pageCount);
    index := ParseInt(id).value - 1;
  }

  lemma {:induction false} PlanOfOrder(pages: seq<Page>, order: seq<string>, plan: seq<nat>)
    requires PagesOfDocument(pages)
    requires forall id :: id in order ==> id in PageIds(|pages|)
    requires |plan| == |order|
    requires forall k :: 0 <= k < |order| ==> order[k] == NatToString(plan[k] + 1)
    ensures IsPlanOf(plan, pages, order)
  {
    forall k | 0 <= k < |order|
      ensures ParseInt(order[k]) == Num(plan[k] + 1)
      ensures plan[k] < |pages| && pages[plan[k]].id == order[k]
      ensures pages[plan[k]].pageNumber == plan[k] + 1
    {
      assert order[k] in order;
      PlanEntry(pages, order[k], plan[k]);
    }
  }

  /** The export entry for one id: the id parses to the page number `p + 1`, and
      `pages[p]` is the loaded page with that id. */
  lemma {:induction false} PlanEntry(pages: seq<Page>, id: string, p: nat)
    requires PagesOfDocument(pages) && id in PageIds(|pages|)
    requires id == NatToString(p + 1)
    ensures ParseInt(id) == Num(p + 1)
    ensures p < |pages| && pages[p].id == id && pages[p].pageNumber == p + 1
  {
    ParseIntOfString(p + 1);
    PageOfId(pages, id);
  }

  /** Every id of a loaded page list is a page id, and no two pages share an id. */
  lemma {:induction false} IdsOfPages(pages: seq<Page>, k: nat, m: nat)
    requires PagesOfDocument(pages) && k < |pages| && m < |pages|
    ensures pages[k].id in PageIds(|pages|)
    ensures pages[k].id == pages[m].id ==> k == m
  {
    PageIdOf(k + 1, |pages|);
    if k != m {
      NatToStringInjective(k + 1, m + 1);
    }
  }

  class App {
    var pdfJsLoaded: bool
    /** Whether `pdfFile` holds a document (it is `null` until the first load). */
    var pdfLoaded: bool
    var pages: seq<Page>
    var selectedPages: set<string>
    var order: seq<string>
    var draggedItem: Option<string>
    var dragOverIndex: Option<int>
    var showAllPages: bool
    var pageIndexes: string

    /** The component's invariant: the pages are those of the loaded document, and the
        order holds each selected id exactly once and nothing else. */
    ghost predicate Valid()
      reads this
    {
      && PagesOfDocument(pages)
      && (!pdfLoaded ==> pages == [])
      && SelectionInvariant(selectedPages, order, |pages|)
    }

    /** The initial state of every `useState` hook. */
    constructor ()
      ensures Valid()
      ensures !pdfJsLoaded && !pdfLoaded && pages == []
      ensures selectedPages == {} && order == []
      ensures draggedItem == None && dragOverIndex == None
      ensures showAllPages && pageIndexes == ""
    {
      pdfJsLoaded, pdfLoaded, pages := false, false, [];
      selectedPages, order := {}, [];
      draggedItem, dragOverIndex := None, None;
      showAllPages, pageIndexes := true, "";
    }

    /** The effect that marks pdf.js as available once its script has loaded. */
    method MarkPdfJsLoaded()
      requires Valid()
      modifies this
      ensures Valid() && pdfJsLoaded
      ensures unchanged(this`pdfLoaded, this`pages, this`selectedPages, this`order)
      ensures unchanged(this`draggedItem, this`dragOverIndex, this`showAllPages, this`pageIndexes)
    {
      pdfJsLoaded := true;
    }

    /** `handleFileChange`. `decodedPages` is what pdf.js reports: the page count, or
        `None` when decoding or rendering a page failed. A successful load replaces
        the pages and clears the selection and the order. */
    method HandleFileChange(file: FileInput, decodedPages: Option<nat>) returns (outcome: LoadOutcome)
      requires Valid()
      modifies this
      ensures Valid()
      ensures outcome == if !pdfJsLoaded then PdfJsNotReady
                         else if file.NoFile? || file.mediaType != "application/pdf" then InvalidFile
                         else if decodedPages.None? then ProcessingFailed
                         else Loaded
      ensures outcome != Loaded ==> unchanged(this)
      ensures outcome == Loaded ==>
                && pdfLoaded && |pages| == decodedPages.value
                && selectedPages == {} && order == [] && showAllPages
      ensures unchanged(this`pdfJsLoaded, this`draggedItem, this`dragOverIndex, this`pageIndexes)
    {
      if !pdfJsLoaded {
        return PdfJsNotReady;
      }
      if file.NoFile? || file.mediaType != "application/pdf" {
        return InvalidFile;
      }
      if decodedPages.None? {
        return ProcessingFailed;
      }
      var pageImages := RenderPages(decodedPages.value);
      pages := pageImages;
      pdfLoaded := true;
      selectedPages := {};
      order := [];
      showAllPages := true;
      outcome := Loaded;
    }

    /** `togglePageSelection`: a selected id leaves both the selection and the order;
        an unselected one joins the selection and goes to the end of the order. The
        grid only offers ids of loaded pages. */
    method TogglePageSelection(pageId: string)
      requires Valid() && pageId in PageIds(|pages|)
      modifies this
      ensures Valid()
      ensures old(pageId in selectedPages) ==>
                selectedPages == old(selectedPages) - {pageId} && order == Without(old(order), pageId)
      ensures old(pageId !in selectedPages) ==>
                selectedPages == old(selectedPages) + {pageId} && order == old(order) + [pageId]
      ensures unchanged(this`pdfJsLoaded, this`pdfLoaded, this`pages, this`showAllPages)
      ensures unchanged(this`draggedItem, this`dragOverIndex, this`pageIndexes)
    {
      if pageId in selectedPages {
        WithoutKeepsInvariant(order, selectedPages, pageId);
        order := Without(order, pageId);
        selectedPages := selectedPages - {pageId};
      } else {
        AppendKeepsInvariant(order, selectedPages, pageId);
        order := order + [pageId];
        selectedPages := selectedPages + {pageId};
      }
    }

    /** `proceedToReorder`: refused, with nothing changed, while nothing is selected. */
    method ProceedToReorder() returns (ok: bool)
      requires Valid()
      modifies this
      ensures Valid()
      ensures ok <==> old(selectedPages) != {}
      ensures ok ==> !showAllPages
      ensures !ok ==> showAllPages == old(showAllPages)
      ensures unchanged(this`pdfJsLoaded, this`pdfLoaded, this`pages, this`selectedPages, this`order)
      ensures unchanged(this`draggedItem, this`dragOverIndex, this`pageIndexes)
    {
      if |selectedPages| == 0 {
        return false;
      }
      showAllPages := false;
      ok := true;
    }

    /** `backToSelection`. */
    method BackToSelection()
      requires Valid()
      modifies this
      ensures Valid() && showAllPages
      ensures unchanged(this`pdfJsLoaded, this`pdfLoaded, this`pages, this`selectedPages, this`order)
      ensures unchanged(this`draggedItem, this`dragOverIndex, this`pageIndexes)
    {
      showAllPages := true;
    }

    /** The "Reset Selection" button: the selection and the order become empty. */
    method ResetSelection()
      requires Valid()
      modifies this
      ensures Valid() && selectedPages == {} && order == []
      ensures unchanged(this`pdfJsLoaded, this`pdfLoaded, this`pages, this`showAllPages)
      ensures unchanged(this`draggedItem, this`dragOverIndex, this`pageIndexes)
    {
      selectedPages := {};
      order := [];
    }

    /** The `onChange` of the index text box. */
    method EditPageIndexes(text: string)
      requires Valid()
      modifies this
      ensures Valid() && pageIndexes == text
      ensures unchanged(this`pdfJsLoaded, this`pdfLoaded, this`pages, this`selectedPages, this`order)
      ensures unchanged(this`draggedItem, this`dragOverIndex, this`showAllPages)
    {
      pageIndexes := text;
    }

    /** `selectPagesByIndex`: when some token of the typed list names a page, the
        selection and the order become the named pages, first occurrence first;
        otherwise nothing changes. */
    method SelectPagesByIndex() returns (ok: bool)
      requires Valid()
      modifies this
      ensures Valid()
      ensures var r := IndexSelection(old(pageIndexes), |pages|);
              && (ok <==> r != [])
              && (ok ==> selectedPages == Elems(r) && order == r)
              && (!ok ==> selectedPages == old(selectedPages) && order == old(order))
      ensures unchanged(this`pdfJsLoaded, this`pdfLoaded, this`pages, this`showAllPages)
      ensures unchanged(this`draggedItem, this`dragOverIndex, this`pageIndexes)
    {
      var found, selected, unique := ParseSelection(pageIndexes, |pages|);
      if found == 0 {
        return false;
      }
      selectedPages := selected;
      order := unique;
      ok := true;
    }

    /** `handleDragStart`: remembers the dragged id. */
    method HandleDragStart(id: string)
      requires Valid()
      modifies this
      ensures Valid() && draggedItem == Some(id)
      ensures unchanged(this`pdfJsLoaded, this`pdfLoaded, this`pages, this`selectedPages, this`order)
      ensures unchanged(this`dragOverIndex, this`showAllPages, this`pageIndexes)
    {
      draggedItem := Some(id);
    }

    /** `handleDragEnd`: the drag state is cleared whether or not a drop happened. */
    method HandleDragEnd()
      requires Valid()
      modifies this
      ensures Valid() && draggedItem == None && dragOverIndex == None
      ensures unchanged(this`pdfJsLoaded, this`pdfLoaded, this`pages, this`selectedPages, this`order)
      ensures unchanged(this`showAllPages, this`pageIndexes)
    {
      draggedItem := None;
      dragOverIndex := None;
    }

    /** `handleDragEnter`: only the highlighted index changes. */
    method HandleDragEnter(index: int)
      requires Valid()
      modifies this
      ensures Valid() && dragOverIndex == Some(index)
      ensures unchanged(this`pdfJsLoaded, this`pdfLoaded, this`pages, this`selectedPages, this`order)
      ensures unchanged(this`draggedItem, this`showAllPages, this`pageIndexes)
    {
      dragOverIndex := Some(index);
    }

    /** `handleDragLeave`: only the highlighted index changes. */
    method HandleDragLeave()
      requires Valid()
      modifies this
      ensures Valid() && dragOverIndex == None
      ensures unchanged(this`pdfJsLoaded, this`pdfLoaded, this`pages, this`selectedPages, this`order)
      ensures unchanged(this`draggedItem, this`showAllPages, this`pageIndexes)
    {
      dragOverIndex := None;
    }

    /** Whether a drop onto `targetIndex` leaves the order alone: no dragged id (the
        empty string is falsy too), or the dragged id already sits there. */
    ghost predicate DropIsNoOp(targetIndex: nat)
      reads this
    {
      draggedItem.None? || draggedItem.value == "" || IndexOf(order, draggedItem.value) == targetIndex
    }

    /** `handleDrop`: the dragged id moves to `targetIndex` by two splices on a copy
        of the order. Drop targets are the cards of the order, and a drag starts on
        one of them, so the index is in range and the dragged id is in the order. */
    method HandleDrop(targetIndex: nat)
      requires Valid()
      requires targetIndex < |order|
      requires draggedItem.Some? && draggedItem.value != "" ==> draggedItem.value in order
      modifies this
      ensures Valid()
      ensures old(DropIsNoOp(targetIndex)) ==> order == old(order) && dragOverIndex == old(dragOverIndex)
      ensures !old(DropIsNoOp(targetIndex)) ==>
                && order == Move(old(order), IndexOf(old(order), old(draggedItem).value), targetIndex)
                && dragOverIndex == None
      ensures unchanged(this`pdfJsLoaded, this`pdfLoaded, this`pages, this`selectedPages)
      ensures unchanged(this`draggedItem, this`showAllPages, this`pageIndexes)
    {
      if draggedItem.None? || draggedItem.value == "" {
        return;
      }
      var draggedIndex := IndexOf(order, draggedItem.value);
      if draggedIndex == targetIndex {
        return;
      }
      var current := order;
      var newOrder := new string[|current|](k requires 0 <= k < |current| => current[k]);
      assert newOrder[..] == current;
      SpliceMove(newOrder, draggedIndex, targetIndex);
      MoveKeepsInvariant(current, selectedPages, draggedIndex, targetIndex);
      order := newOrder[..];
      dragOverIndex := None;
    }

    /** The page plan of `exportPdf`: nothing without a loaded file or with an empty
        selection; otherwise the source page of each id of the order, in order. */
    method ExportPlan() returns (plan: Option<seq<nat>>)
      requires Valid()
      ensures plan.None? <==> !pdfLoaded || selectedPages == {}
      ensures plan.Some? ==> IsPlanOf(plan.value, pages, order)
    {
      if !pdfLoaded || |selectedPages| == 0 {
        return None;
      }
      assert forall id :: id in order ==> id in selectedPages;
      var pageNumbers := PlanPages(pages, order);
      plan := Some(pageNumbers);
    }
  }
}
