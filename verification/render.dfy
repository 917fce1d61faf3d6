/** Cell formatting of the artwork table. */
module Render {
  import opened Optional

  /** Shown in place of an empty or absent inscriptions value. */
  const NoInscriptions: string := "No inscriptions given for this one"

  /** The body of an inscriptions cell. JavaScript truthiness makes both an
      absent value and the empty string fall back to the placeholder. */
  function InscriptionsBody(inscriptions: Option<string>): (cell: string)
    ensures |cell| > 0
    ensures inscriptions.Present? && inscriptions.value != "" ==> cell == inscriptions.value
    ensures inscriptions.Absent? || inscriptions.value == "" ==> cell == NoInscriptions
  {
    if inscriptions.Present? && inscriptions.value != "" then inscriptions.value else NoInscriptions
  }

  /** A cell shows the placeholder exactly when there is nothing to show, or
      when the stored text happens to be the placeholder itself. */
  lemma PlaceholderShownIff(inscriptions: Option<string>)
    ensures InscriptionsBody(inscriptions) == NoInscriptions
        <==> inscriptions.Absent? || inscriptions.value == "" || inscriptions.value == NoInscriptions
  {
  }

  /** Any non-empty text survives the formatter unchanged, so the stored value
      can be read back from a cell that does not show the placeholder. */
  lemma NonPlaceholderCellRoundTrip(inscriptions: Option<string>)
    requires InscriptionsBody(inscriptions) != NoInscriptions
    ensures inscriptions == Present(InscriptionsBody(inscriptions))
  {
  }
}
