/** The values the diff calculator works on: a sectioned collection, the
    position of a row in it, and the steps of a sectioned diff. */
module Sectioned {
  import opened Optional

  /** An ordered list of sections, each with its section identifier and its
      ordered rows. Identifiers need not be unique. */
  type SectionedValues<S, V> = seq<(S, seq<V>)>

  /** A (section, row) position. Foundation's `IndexPath` calls the row
      `row` on iOS and tvOS and `item` on macOS; both are this field. */
  datatype IndexPath = IndexPath(section: int, row: int)

  /** One step of a sectioned diff. The diff engine that produces them is not
      part of this model; only the number of steps is looked at. */
  datatype SectionedDiffStep<S, V> =
    | SectionInsert(sectionIndex: int, section: S)
    | SectionDelete(sectionIndex: int, section: S)
    | RowInsert(sectionIndex: int, rowIndex: int, value: V)
    | RowDelete(sectionIndex: int, rowIndex: int, value: V)

  /** The list of section identifiers, in order (`sections` of a
      `SectionedValues`). */
  function Sections<S, V>(sv: SectionedValues<S, V>): (r: seq<S>)
    ensures |r| == |sv|
    ensures forall i :: 0 <= i < |sv| ==> r[i] == sv[i].0
  {
    seq(|sv|, i requires 0 <= i < |sv| => sv[i].0)
  }

  /** The first position holding `x`, or None when `xs` does not contain it
      (Swift's `index(of:)`, and `index(where:)` with an equality test). */
  function IndexOf<T(==)>(xs: seq<T>, x: T): (r: Option<nat>)
    ensures r.None? <==> x !in xs
    ensures r.Some? ==> r.value < |xs| && xs[r.value] == x
    ensures r.Some? ==> forall j :: 0 <= j < r.value ==> xs[j] != x
  {
    if |xs| == 0 then None
    else if xs[0] == x then Some(0)
    else match IndexOf(xs[1..], x)
      case None => None
      case Some(i) => Some(i + 1)
  }

  /** Every section identifier occurs once. */
  predicate DistinctSections<S(==), V>(sv: SectionedValues<S, V>) {
    forall i, j :: 0 <= i < j < |sv| ==> sv[i].0 != sv[j].0
  }

  /** Within every section, every row value occurs once. */
  predicate DistinctRows<S, V(==)>(sv: SectionedValues<S, V>) {
    forall k, i, j :: 0 <= k < |sv| && 0 <= i < j < |sv[k].1| ==> sv[k].1[i] != sv[k].1[j]
  }
}
