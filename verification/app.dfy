/** The view component's state and the event handlers that change it:
    mount, page change, count input and the "select first N" submission. */
module App {
  import opened Optional
  import opened Artworks
  import opened Catalog
  import opened Selection

  /** The catalog size the view assumes at mount instead of reading it from the server. */
  const TotalRecordsAtMount: int := 126335

  /** The view's state: the rows of the page on display, the paginator's
      total, the selected rows, the offset of the first visible row and the
      count typed into the selection input. */
  datatype UiState = UiState(
    data: seq<Artwork>,
    totalRecords: int,
    selected: seq<Artwork>,
    first: int,
    selectCount: int)

  /** The state before mount: every hook at its initial value. */
  function Initial(): (st: UiState)
    ensures st.data == [] && st.selected == []
    ensures st.totalRecords == 0 && st.first == 0 && st.selectCount == 0
  {
    UiState([], 0, [], 0, 0)
  }

  /** The mount effect: show page 1 and fix the paginator's total to the
      assumed catalog size; selection, offset and count are untouched. */
  function Mount(c: Catalog, st: UiState): (r: UiState)
    ensures r.data == FetchData(c, 1)
    ensures r.totalRecords == TotalRecordsAtMount
    ensures r.selected == st.selected && r.first == st.first && r.selectCount == st.selectCount
  {
    st.(data := FetchData(c, 1), totalRecords := TotalRecordsAtMount)
  }

  /** A paginator event: the zero-based page index and the offset of its
      first row, either of which may be missing. */
  datatype PageEvent = PageEvent(page: Option<int>, first: Option<int>)

  /** The 1-based page number fetched for a paginator event: the index plus
      one, or page 1 when no index is given. A widget index is never negative,
      so the page requested is always a valid page number. */
  function NextPage(e: PageEvent): (p: int)
    ensures e.page.Absent? ==> p == 1
    ensures e.page.Present? ==> p - 1 == e.page.value
    ensures e.page.Absent? || e.page.value >= 0 ==> p >= 1
  {
    if e.page.Present? then e.page.value + 1 else 1
  }

  /** `onPageChange`: store the event's offset (0 when missing) and show the
      page it names. The new offset depends on the event alone, never on the
      previous one; the selection and the count input are untouched. */
  function OnPageChange(c: Catalog, st: UiState, e: PageEvent): (r: UiState)
    ensures r.first == e.first.OrElse(0)
    ensures e.page.Absent? ==> r.data == FetchData(c, 1)
    ensures e.page.Present? ==> r.data == FetchData(c, e.page.value + 1)
    ensures r.selected == st.selected && r.selectCount == st.selectCount && r.totalRecords == st.totalRecords
  {
    st.(first := e.first.OrElse(0), data := FetchData(c, NextPage(e)))
  }

  /** Mounting is a change to page 1 that keeps the stored offset, followed
      by fixing the paginator's total. */
  lemma MountIsPageOneChange(c: Catalog, st: UiState)
    ensures Mount(c, st) == OnPageChange(c, st, PageEvent(Absent, Present(st.first))).(totalRecords := TotalRecordsAtMount)
  {
  }

  /** The outcome of a page change does not depend on the offset or rows shown before it. */
  lemma PageChangeForgetsPreviousPage(c: Catalog, st1: UiState, st2: UiState, e: PageEvent)
    requires st1.selected == st2.selected && st1.selectCount == st2.selectCount
    requires st1.totalRecords == st2.totalRecords
    ensures OnPageChange(c, st1, e) == OnPageChange(c, st2, e)
  {
  }

  /** A paginator move to page index 4 whose first row is row 48 (12-row
      pages) shows page 5 at offset 48, whatever offset was stored before. */
  lemma PageFourAtOffsetFortyEight(c: Catalog, st: UiState)
    ensures OnPageChange(c, st, PageEvent(Present(4), Present(48))).first == 48
    ensures OnPageChange(c, st, PageEvent(Present(4), Present(48))).data == FetchData(c, 5)
  {
  }

  /** The count input's change handler: `e.value || 0`, so a cleared input
      becomes a count of zero. */
  function OnCountChange(st: UiState, value: Option<int>): (r: UiState)
    ensures value.Absent? ==> r.selectCount == 0
    ensures value.Present? ==> r.selectCount == value.value
    ensures r.data == st.data && r.selected == st.selected && r.first == st.first && r.totalRecords == st.totalRecords
  {
    st.(selectCount := value.OrElse(0))
  }

  /** `handleSelectRows`, for a catalog on which its loop returns: the
      selection becomes exactly the first `selectCount` catalog rows, in page
      order, replacing whatever was selected before; nothing else changes. */
  function HandleSelectRows(c: Catalog, st: UiState): (r: UiState)
    requires st.selectCount <= Total(c)
    ensures |r.selected| == Max(st.selectCount, 0)
    ensures r.selected <= AllRows(c)
    ensures r.data == st.data && r.first == st.first && r.selectCount == st.selectCount && r.totalRecords == st.totalRecords
  {
    st.(selected := SelectFirst(c, st.selectCount))
  }

  /** The selection is replaced wholesale: the previous selection has no
      influence on the new one, and submitting twice in a row changes nothing
      the second time. */
  lemma SubmitReplacesSelection(c: Catalog, st1: UiState, st2: UiState)
    requires st1.selectCount == st2.selectCount <= Total(c)
    ensures HandleSelectRows(c, st1).selected == HandleSelectRows(c, st2).selected
    ensures HandleSelectRows(c, HandleSelectRows(c, st1)) == HandleSelectRows(c, st1)
  {
  }

  /** A cleared or zero count selects nothing, whatever was selected before. */
  lemma ClearedCountSelectsNothing(c: Catalog, st: UiState, value: Option<int>)
    requires value.Absent? || value.value <= 0
    ensures HandleSelectRows(c, OnCountChange(st, value)).selected == []
  {
  }
}
