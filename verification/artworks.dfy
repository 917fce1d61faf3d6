/** The catalog record shown in each table row, and facts about the ids of a row sequence. */
module Artworks {
  import opened Optional

  /** One artwork as the catalog API returns it. Only `inscriptions` is ever
      tested for absence by the application, so it alone is optional here. */
  datatype Artwork = Artwork(
    id: int,
    title: string,
    placeOfOrigin: string,
    artistDisplay: string,
    inscriptions: Option<string>,
    dateStart: int,
    dateEnd: int)

  /** The ids occurring in a sequence of rows. */
  function Ids(rows: seq<Artwork>): set<int> {
    set i | 0 <= i < |rows| :: rows[i].id
  }

  /** No two positions of `rows` carry the same id. */
  predicate DistinctIds(rows: seq<Artwork>) {
    forall i, j :: 0 <= i < j < |rows| ==> rows[i].id != rows[j].id
  }

  lemma IdsOfConcat(a: seq<Artwork>, b: seq<Artwork>)
    ensures Ids(a + b) == Ids(a) + Ids(b)
  {
    forall x | x in Ids(a + b) ensures x in Ids(a) + Ids(b) {
      var i :| 0 <= i < |a + b| && (a + b)[i].id == x;
      if i < |a| {
        assert a[i].id == x;
      } else {
        assert b[i - |a|].id == x;
      }
    }
    forall x | x in Ids(a) + Ids(b) ensures x in Ids(a + b) {
      if x in Ids(a) {
        var i :| 0 <= i < |a| && a[i].id == x;
        assert (a + b)[i].id == x;
      } else {
        var i :| 0 <= i < |b| && b[i].id == x;
        assert (a + b)[|a| + i].id == x;
      }
    }
  }

  /** Two id-distinct sequences with disjoint id sets concatenate to an id-distinct sequence. */
  lemma DistinctConcat(a: seq<Artwork>, b: seq<Artwork>)
    requires DistinctIds(a) && DistinctIds(b)
    requires Ids(a) !! Ids(b)
    ensures DistinctIds(a + b)
  {
    forall i, j | 0 <= i < j < |a + b| ensures (a + b)[i].id != (a + b)[j].id {
      if j < |a| {
        assert (a + b)[i] == a[i] && (a + b)[j] == a[j];
      } else if |a| <= i {
        assert (a + b)[i] == b[i - |a|] && (a + b)[j] == b[j - |a|];
      } else {
        assert (a + b)[i].id in Ids(a);
        assert (a + b)[j].id == b[j - |a|].id;
        assert (a + b)[j].id in Ids(b);
      }
    }
  }
}
