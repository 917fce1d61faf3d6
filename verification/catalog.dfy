/** The remote catalog as seen through `fetchData`: a fixed snapshot of what
    each page request returns, and the concatenation of its pages. */
module Catalog {
  import opened Artworks

  /** The outcome of one page request: the decoded `data` rows, or a network
      or decoding failure. */
  datatype Response = Delivered(rows: seq<Artwork>) | Failed

  /** A stable catalog snapshot. Page `p` (1-based) answers with
      `responses[p - 1]`; every page past the end answers with a failure. */
  datatype Catalog = Catalog(responses: seq<Response>)

  /** The raw answer to a request for page `p`. */
  function Respond(c: Catalog, p: int): Response {
    if 1 <= p <= |c.responses| then c.responses[p - 1] else Failed
  }

  /** `fetchData(p)`: the rows of page `p`, with every failure swallowed into an empty page. */
  function FetchData(c: Catalog, p: int): seq<Artwork> {
    match Respond(c, p)
    case Delivered(rows) => rows
    case Failed => []
  }

  /** A caller of `FetchData` sees an empty page exactly when the request
      failed or the page really is empty, and cannot tell the two apart. */
  lemma EmptyPageIff(c: Catalog, p: int)
    ensures FetchData(c, p) == [] <==> Respond(c, p) == Failed || Respond(c, p) == Delivered([])
    ensures Respond(c, p).Delivered? ==> FetchData(c, p) == Respond(c, p).rows
  {
  }

  /** The rows of pages 1, 2, ..., k in page order and, within a page, in the
      order the page lists them. */
  function Through(c: Catalog, k: nat): seq<Artwork>
    decreases k
  {
    if k == 0 then [] else Through(c, k - 1) + FetchData(c, k)
  }

  /** Every row the catalog can ever deliver, in order. */
  function AllRows(c: Catalog): seq<Artwork> {
    Through(c, |c.responses|)
  }

  /** The number of rows the catalog can ever deliver. */
  function Total(c: Catalog): nat {
    |AllRows(c)|
  }

  /** Reading fewer pages yields a prefix of reading more pages. */
  lemma {:induction false} ThroughIsPrefix(c: Catalog, j: nat, k: nat)
    requires j <= k
    ensures Through(c, j) <= Through(c, k)
    ensures |Through(c, j)| <= |Through(c, k)|
    decreases k
  {
    if j < k {
      ThroughIsPrefix(c, j, k - 1);
      assert Through(c, k) == Through(c, k - 1) + FetchData(c, k);
    }
  }

  /** Reading past the end of the snapshot adds nothing. */
  lemma {:induction false} ThroughSaturates(c: Catalog, k: nat)
    requires k >= |c.responses|
    ensures Through(c, k) == AllRows(c)
    decreases k
  {
    if k > |c.responses| {
      ThroughSaturates(c, k - 1);
      assert FetchData(c, k) == [];
    }
  }

  /** However many pages are read, they are a prefix of all rows, so they never
      hold more than `Total(c)` rows. */
  lemma ThroughBounded(c: Catalog, k: nat)
    ensures Through(c, k) <= AllRows(c)
    ensures |Through(c, k)| <= Total(c)
  {
    if k <= |c.responses| {
      ThroughIsPrefix(c, k, |c.responses|);
    } else {
      ThroughSaturates(c, k);
    }
  }

  /** The catalog's ids are distinct within every page and disjoint between pages. */
  predicate PagesHaveDistinctIds(c: Catalog) {
    && (forall p :: 1 <= p <= |c.responses| ==> DistinctIds(FetchData(c, p)))
    && (forall p, q :: 1 <= p < q <= |c.responses| ==> Ids(FetchData(c, p)) !! Ids(FetchData(c, q)))
  }

  /** Reading pages 1..k of such a catalog never yields the same id twice, and
      shares no id with any later page. */
  lemma {:induction false} ThroughHasDistinctIds(c: Catalog, k: nat)
    requires PagesHaveDistinctIds(c)
    requires k <= |c.responses|
    ensures DistinctIds(Through(c, k))
    ensures forall q :: k < q <= |c.responses| ==> Ids(Through(c, k)) !! Ids(FetchData(c, q))
    decreases k
  {
    if k > 0 {
      ThroughHasDistinctIds(c, k - 1);
      var before, page := Through(c, k - 1), FetchData(c, k);
      IdsOfConcat(before, page);
      DistinctConcat(before, page);
      forall q | k < q <= |c.responses| ensures Ids(Through(c, k)) !! Ids(FetchData(c, q)) {
        assert Ids(page) !! Ids(FetchData(c, q));
      }
    }
  }
}
