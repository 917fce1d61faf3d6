/** The cross-page "select the first N rows" routine (`handleSelectRows`):
    the loop as written, its reference specification, a fuel-bounded replica
    that exhibits its non-termination, and a variant with an exhaustion escape. */
module Selection {
  import opened Artworks
  import opened Catalog

  function Min(a: int, b: int): int {
    if a <= b then a else b
  }

  function Max(a: int, b: int): int {
    if a <= b then b else a
  }

  /** JavaScript's `xs.slice(0, end)` for a non-negative `end`: the first
      `end` elements, or all of them when there are fewer. */
  function Slice<T>(xs: seq<T>, end: nat): (front: seq<T>)
    ensures |front| == Min(end, |xs|)
    ensures front <= xs
  {
    if end <= |xs| then xs[..end] else xs
  }

  /** Reference specification: the first `n` rows of the catalog read page by
      page from page 1; nothing for a count of zero or less. Defined only when
      the catalog holds at least `n` rows (otherwise the routine never returns). */
  function SelectFirst(c: Catalog, n: int): seq<Artwork>
    requires n <= Total(c)
  {
    if n <= 0 then [] else AllRows(c)[..n]
  }

  /** The loop of `handleSelectRows`, with `fetched` recording the page
      numbers requested in order. It returns only when the catalog holds at
      least `selectCount` rows. The result is exactly the first `selectCount`
      rows; the pages requested are 1, 2, ..., k with no page twice; and k is
      the least number of pages that hold enough rows, so no page is
      requested without need. */
  method SelectRows(c: Catalog, selectCount: int) returns (rowsToSelect: seq<Artwork>, fetched: seq<int>)
    requires selectCount <= Total(c)
    ensures selectCount <= 0 ==> rowsToSelect == [] && fetched == []
    ensures selectCount > 0 ==> |rowsToSelect| == selectCount
    ensures rowsToSelect <= AllRows(c)
    ensures rowsToSelect == SelectFirst(c, selectCount)
    ensures forall i :: 0 <= i < |fetched| ==> fetched[i] == i + 1
    ensures rowsToSelect <= Through(c, |fetched|)
    ensures |fetched| > 0 ==> |Through(c, |fetched| - 1)| < selectCount
  {
    rowsToSelect := [];
    var remainingRows := selectCount;
    var currentPage := 1;
    fetched := [];
    while remainingRows > 0
      invariant 1 <= currentPage <= |c.responses| + 1
      invariant |fetched| == currentPage - 1
      invariant forall i :: 0 <= i < |fetched| ==> fetched[i] == i + 1
      invariant |rowsToSelect| + remainingRows == selectCount
      invariant selectCount <= 0 ==> rowsToSelect == [] && currentPage == 1
      invariant selectCount > 0 ==> remainingRows >= 0
      invariant rowsToSelect <= Through(c, currentPage - 1)
      invariant remainingRows > 0 ==> rowsToSelect == Through(c, currentPage - 1)
      invariant currentPage > 1 ==> |Through(c, currentPage - 2)| < selectCount
      decreases |c.responses| + 1 - currentPage
    {
      assert currentPage - 1 != |c.responses|;
      var pageData := FetchData(c, currentPage);
      var rowsOnPage := Slice(pageData, remainingRows);
      assert Through(c, currentPage) == rowsToSelect + pageData;
      rowsToSelect := rowsToSelect + rowsOnPage;
      remainingRows := remainingRows - |rowsOnPage|;
      fetched := fetched + [currentPage];
      currentPage := currentPage + 1;
    }
    ThroughBounded(c, currentPage - 1);
  }

  /** How a fuel-bounded run of the loop ends: it returned its rows, or it
      was still running when the fuel ran out. */
  datatype LoopOutcome = Returned(rows: seq<Artwork>) | OutOfFuel

  /** The same loop as a function with `fuel` iterations at most: `OutOfFuel`
      means the loop was still running when the fuel ran out. Whenever it
      finishes, it has only appended to the rows it started with, and the
      counter has landed exactly on zero: no slice ever overshoots it. */
  function RunLoop(c: Catalog, rowsToSelect: seq<Artwork>, remainingRows: int, currentPage: int, fuel: nat): (r: LoopOutcome)
    ensures r.Returned? ==> rowsToSelect <= r.rows
    ensures r.Returned? && remainingRows > 0 ==> |r.rows| == |rowsToSelect| + remainingRows
    ensures remainingRows <= 0 ==> r == Returned(rowsToSelect)
    decreases fuel
  {
    if remainingRows <= 0 then Returned(rowsToSelect)
    else if fuel == 0 then OutOfFuel
    else
      var rowsOnPage := Slice(FetchData(c, currentPage), remainingRows);
      RunLoop(c, rowsToSelect + rowsOnPage, remainingRows - |rowsOnPage|, currentPage + 1, fuel - 1)
  }

  /** From any loop state whose accumulated rows already use up pages
      1..currentPage-1 while more rows are wanted than the catalog has left,
      no amount of fuel finishes the loop: every later page is taken whole and
      the counter never reaches zero. */
  lemma {:induction false} LoopDiverges(c: Catalog, rowsToSelect: seq<Artwork>, remainingRows: int, currentPage: nat, fuel: nat)
    requires currentPage >= 1
    requires remainingRows > 0
    requires |rowsToSelect| == |Through(c, currentPage - 1)|
    requires |rowsToSelect| + remainingRows > Total(c)
    ensures RunLoop(c, rowsToSelect, remainingRows, currentPage, fuel) == OutOfFuel
    decreases fuel
  {
    if fuel > 0 {
      var pageData := FetchData(c, currentPage);
      ThroughBounded(c, currentPage);
      assert |Through(c, currentPage)| == |Through(c, currentPage - 1)| + |pageData|;
      var rowsOnPage := Slice(pageData, remainingRows);
      assert |rowsOnPage| == |pageData|;
      LoopDiverges(c, rowsToSelect + rowsOnPage, remainingRows - |rowsOnPage|, currentPage + 1, fuel - 1);
    }
  }

  /** From a loop state that has taken pages 1..currentPage-1 whole and still
      wants rows the catalog has, enough fuel finishes the loop with the first
      `|rowsToSelect| + remainingRows` rows of the catalog. */
  lemma {:induction false} LoopFinishes(c: Catalog, rowsToSelect: seq<Artwork>, remainingRows: int, currentPage: nat, fuel: nat)
    requires 1 <= currentPage <= |c.responses| + 1
    requires remainingRows > 0
    requires rowsToSelect == Through(c, currentPage - 1)
    requires |rowsToSelect| + remainingRows <= Total(c)
    requires fuel + currentPage > |c.responses| + 1
    ensures RunLoop(c, rowsToSelect, remainingRows, currentPage, fuel) == Returned(AllRows(c)[..|rowsToSelect| + remainingRows])
    decreases fuel
  {
    assert currentPage - 1 != |c.responses|;
    var pageData := FetchData(c, currentPage);
    var rowsOnPage := Slice(pageData, remainingRows);
    var next := rowsToSelect + rowsOnPage;
    assert Through(c, currentPage) == rowsToSelect + pageData;
    ThroughBounded(c, currentPage);
    if |pageData| >= remainingRows {
      assert next <= Through(c, currentPage);
      assert next == AllRows(c)[..|rowsToSelect| + remainingRows];
    } else {
      assert next == Through(c, currentPage);
      LoopFinishes(c, next, remainingRows - |rowsOnPage|, currentPage + 1, fuel - 1);
    }
  }

  /** The loop returns if and only if the catalog holds at least
      `selectCount` rows. When it does, one iteration per snapshot page (plus
      one) is enough and the result is `SelectFirst`; when it does not, it
      never returns, whatever the fuel. Because a failed request reads as an
      empty page, a network that stays down makes every positive count hang. */
  lemma LoopTerminatesIff(c: Catalog, selectCount: int)
    ensures selectCount <= Total(c) <==> RunLoop(c, [], selectCount, 1, |c.responses| + 1).Returned?
    ensures selectCount <= Total(c) ==> RunLoop(c, [], selectCount, 1, |c.responses| + 1) == Returned(SelectFirst(c, selectCount))
    ensures selectCount > Total(c) ==> forall fuel: nat :: RunLoop(c, [], selectCount, 1, fuel) == OutOfFuel
  {
    if selectCount > Total(c) {
      forall fuel: nat ensures RunLoop(c, [], selectCount, 1, fuel) == OutOfFuel {
        LoopDiverges(c, [], selectCount, 1, fuel);
      }
    } else if selectCount > 0 {
      LoopFinishes(c, [], selectCount, 1, |c.responses| + 1);
    }
  }

  /** With the network down every request fails, so every page reads as
      empty and any positive count keeps the loop requesting pages forever. */
  lemma FailingNetworkHangs(selectCount: int, fuel: nat)
    requires selectCount > 0
    ensures RunLoop(Catalog([]), [], selectCount, 1, fuel) == OutOfFuel
  {
    LoopTerminatesIff(Catalog([]), selectCount);
  }

  /** The loop with the exhaustion escape it lacks: it stops at the first
      page that comes back empty. It always returns; its result is always a
      prefix of the catalog and never longer than asked for; it requests
      pages 1, 2, ..., k, none for a count of zero or less, and never a page
      after the one that completes the count; every page it
      requested before the last one was non-empty; it falls short only when
      the last page it requested was empty, and then it returns every row of
      the pages read so far. A full-length result is exactly what `SelectRows`
      returns, and that is always the outcome on a catalog that holds enough
      rows and has no empty page before its end. */
  method SelectRowsStoppingOnEmptyPage(c: Catalog, selectCount: int) returns (rowsToSelect: seq<Artwork>, fetched: seq<int>)
    ensures |rowsToSelect| <= Max(selectCount, 0)
    ensures rowsToSelect <= AllRows(c)
    ensures forall i :: 0 <= i < |fetched| ==> fetched[i] == i + 1
    ensures selectCount <= 0 ==> fetched == []
    ensures rowsToSelect <= Through(c, |fetched|)
    ensures |fetched| > 0 ==> |Through(c, |fetched| - 1)| < selectCount
    ensures forall p :: 1 <= p < |fetched| ==> FetchData(c, p) != []
    ensures |rowsToSelect| < selectCount ==> |fetched| > 0 && FetchData(c, |fetched|) == []
    ensures |rowsToSelect| < selectCount ==> rowsToSelect == Through(c, |fetched|)
    ensures |rowsToSelect| == Max(selectCount, 0) ==> selectCount <= Total(c) && rowsToSelect == SelectFirst(c, selectCount)
    ensures selectCount <= Total(c) && (forall p :: 1 <= p <= |c.responses| ==> FetchData(c, p) != [])
        ==> rowsToSelect == SelectFirst(c, selectCount)
  {
    rowsToSelect := [];
    var remainingRows := selectCount;
    var currentPage := 1;
    fetched := [];
    while remainingRows > 0
      invariant 1 <= currentPage <= |c.responses| + 1
      invariant |fetched| == currentPage - 1
      invariant forall i :: 0 <= i < |fetched| ==> fetched[i] == i + 1
      invariant |rowsToSelect| + remainingRows == selectCount
      invariant selectCount <= 0 ==> rowsToSelect == []
      invariant selectCount > 0 ==> remainingRows >= 0
      invariant rowsToSelect <= Through(c, currentPage - 1)
      invariant remainingRows > 0 ==> rowsToSelect == Through(c, currentPage - 1)
      invariant forall p :: 1 <= p < currentPage ==> FetchData(c, p) != []
      invariant selectCount <= 0 ==> currentPage == 1
      invariant currentPage > 1 ==> |Through(c, currentPage - 2)| < selectCount
      decreases |c.responses| + 1 - currentPage
    {
      var pageData := FetchData(c, currentPage);
      fetched := fetched + [currentPage];
      if pageData == [] {
        ThroughBounded(c, currentPage - 1);
        if currentPage - 1 == |c.responses| {
          assert rowsToSelect == AllRows(c);
        }
        assert Through(c, currentPage) == rowsToSelect;
        break;
      }
      assert currentPage <= |c.responses|;
      var rowsOnPage := Slice(pageData, remainingRows);
      assert Through(c, currentPage) == rowsToSelect + pageData;
      rowsToSelect := rowsToSelect + rowsOnPage;
      remainingRows := remainingRows - |rowsOnPage|;
      currentPage := currentPage + 1;
    }
    ThroughBounded(c, currentPage - 1);
  }

  /** Selecting more rows than page 1 holds but no more than pages 1 and 2
      hold yields all of page 1 followed by the front of page 2 (for pages of
      12 rows and a count of 15: page 1 whole, then three rows of page 2). */
  lemma SelectionSpansTwoPages(c: Catalog, n: int)
    requires |FetchData(c, 1)| < n <= |FetchData(c, 1)| + |FetchData(c, 2)|
    ensures n <= Total(c)
    ensures SelectFirst(c, n) == FetchData(c, 1) + FetchData(c, 2)[..n - |FetchData(c, 1)|]
  {
    ThroughBounded(c, 2);
    assert Through(c, 2) == FetchData(c, 1) + FetchData(c, 2);
  }

  /** If ids are distinct within and across the catalog's pages, the
      selection never holds two rows with the same id: it is a prefix of the
      page-ordered concatenation and no page is read twice. */
  lemma SelectionHasDistinctIds(c: Catalog, n: int)
    requires n <= Total(c)
    requires PagesHaveDistinctIds(c)
    ensures DistinctIds(SelectFirst(c, n))
  {
    ThroughHasDistinctIds(c, |c.responses|);
  }
}
