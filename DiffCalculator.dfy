/** The diff calculator's state holder (`AbstractDiffCalculator`): the one
    current sectioned collection, the read accessors over it, and the update
    entry point that hands a non-empty diff to the `processChanges` hook. */
module DiffCalculator {
  import opened Optional
  import opened Sectioned

  /** One call of the `processChanges` hook: the state the calculator held
      while the hook ran, and the new state and diff it was given. */
  datatype HookCall<S, V> = HookCall(
    observed: SectionedValues<S, V>,
    newState: SectionedValues<S, V>,
    diff: seq<SectionedDiffStep<S, V>>)

  class AbstractDiffCalculator<S(==), V(==)> {
    /** The held state, `_sectionedValues`. The public `sectionedValues`
        getter returns it unchanged. */
    var storedValues: SectionedValues<S, V>
    /** The sectioned diff engine; it is given, not modelled. */
    const diff: (SectionedValues<S, V>, SectionedValues<S, V>) -> seq<SectionedDiffStep<S, V>>
    /** Every call the `processChanges` hook has received, oldest first. */
    ghost var hookCalls: seq<HookCall<S, V>>

    constructor (initialSectionedValues: SectionedValues<S, V>,
                 diff: (SectionedValues<S, V>, SectionedValues<S, V>) -> seq<SectionedDiffStep<S, V>>)
      ensures storedValues == initialSectionedValues && this.diff == diff
      ensures hookCalls == []
    {
      storedValues := initialSectionedValues;
      this.diff := diff;
      hookCalls := [];
    }

    // ---- Read accessors ----

    /** `numberOfSections()`: the valid sections are exactly those below it. */
    function NumberOfSections(): (n: nat)
      reads this
      ensures n == |Sections(storedValues)|
      ensures forall s :: IsValidSection(s) <==> 0 <= s < n
    {
      |storedValues|
    }

    /** `isValidSection`, with the lower bound the source leaves out (see
        IsValidSectionAsWritten): the as-written guard on non-negative
        sections only. */
    predicate IsValidSection(section: int)
      reads this
      ensures IsValidSection(section) <==> 0 <= section && IsValidSectionAsWritten(section)
    {
      0 <= section < |storedValues|
    }

    /** `value(forSection:)`: no bounds check, so the caller must pass a
        valid section. The result is the identifier of that section; it is
        found by `indexPath(forSection:)` at this section or at an earlier one
        with the same identifier, and at this one when identifiers are unique. */
    function ValueForSection(section: int): (r: S)
      reads this
      requires IsValidSection(section)
      ensures r == Sections(storedValues)[section]
      ensures IndexPathForSection(r).Some? && IndexPathForSection(r).value.section <= section
      ensures DistinctSections(storedValues) ==> IndexPathForSection(r) == Some(IndexPath(section, 0))
    {
      storedValues[section].0
    }

    /** `numberOfObjects(inSection:)`: no bounds check either. The valid
        paths in the section are exactly the rows below it. */
    function NumberOfObjects(section: int): (n: nat)
      reads this
      requires IsValidSection(section)
      ensures forall row :: IsValidIndexPath(IndexPath(section, row)) <==> 0 <= row < n
    {
      |storedValues[section].1|
    }

    /** `isValidIndexPath`: the row count is only read once the section is
        known to be valid. The row gets the lower bound the source leaves
        out (see IsValidIndexPathAsWritten). */
    predicate IsValidIndexPath(p: IndexPath)
      reads this
      ensures IsValidIndexPath(p) ==> IsValidSection(p.section) && 0 <= p.row
      ensures IsValidSection(p.section) ==>
                (IsValidIndexPath(p) <==> 0 <= p.row < |storedValues[p.section].1|)
    {
      IsValidSection(p.section) && 0 <= p.row < |storedValues[p.section].1|
    }

    /** `value(atIndexPath:)`. */
    function ValueAtIndexPath(p: IndexPath): (r: Option<V>)
      reads this
      ensures r.None? <==> !IsValidIndexPath(p)
      ensures r.Some? ==> 0 <= p.section < |storedValues| && 0 <= p.row < |storedValues[p.section].1|
                          && r.value == storedValues[p.section].1[p.row]
    {
      if IsValidIndexPath(p) then Some(storedValues[p.section].1[p.row]) else None
    }

    /** `section(atIndexPath:)`: only the section of the path is checked. */
    function SectionAtIndexPath(p: IndexPath): (r: Option<S>)
      reads this
      ensures r.None? <==> !IsValidSection(p.section)
      ensures r.Some? ==> r.value == ValueForSection(p.section)
    {
      if IsValidSection(p.section) then Some(ValueForSection(p.section)) else None
    }

    /** `indexPath(forSection:)`: the first section whose identifier equals
        `section`, at row 0. */
    function IndexPathForSection(section: S): (r: Option<IndexPath>)
      reads this
      ensures r.None? <==> forall i :: 0 <= i < |storedValues| ==> storedValues[i].0 != section
      ensures r.Some? ==> r.value.row == 0 && 0 <= r.value.section < |storedValues|
                          && storedValues[r.value.section].0 == section
      ensures r.Some? ==> forall i :: 0 <= i < r.value.section ==> storedValues[i].0 != section
    {
      match IndexOf(Sections(storedValues), section)
      case None => None
      case Some(i) => Some(IndexPath(i, 0))
    }

    /** `indexPath(forValue:inSection:)`: the value is searched for only in
        the rows of the first section equal to `section`. */
    function IndexPathForValue(value: V, section: S): (r: Option<IndexPath>)
      reads this
      ensures IndexPathForSection(section).None? ==> r.None?
      ensures IndexPathForSection(section).Some? ==>
                var k := IndexPathForSection(section).value.section;
                (r.None? <==> value !in storedValues[k].1)
                && (r.Some? ==> r.value.section == k && 0 <= r.value.row < |storedValues[k].1|
                                && storedValues[k].1[r.value.row] == value
                                && forall j :: 0 <= j < r.value.row ==> storedValues[k].1[j] != value)
    {
      match IndexPathForSection(section)
      case None => None
      case Some(p) =>
        match IndexOf(storedValues[p.section].1, value)
        case None => None
        case Some(i) => Some(IndexPath(p.section, i))
    }

    // ---- Update entry point ----

    /** Every diff the hook has received was non-empty. */
    ghost predicate HookDiffsNonEmpty()
      reads this
    {
      forall i :: 0 <= i < |hookCalls| ==> |hookCalls[i].diff| > 0
    }

    /** `processChanges`: the hook the concrete adapters override. This base
        version only records the call; it does not write the held state. */
    method ProcessChanges(newState: SectionedValues<S, V>, diff: seq<SectionedDiffStep<S, V>>)
      modifies this`hookCalls
      ensures hookCalls == old(hookCalls) + [HookCall(storedValues, newState, diff)]
    {
      hookCalls := hookCalls + [HookCall(storedValues, newState, diff)];
    }

    /** `setSectionedValues`: diffs the held state against the new one and
        calls the hook exactly when the diff is non-empty, with that diff and
        the new state, while the old state is still held. The method itself
        never writes the held state. */
    method SetSectionedValues(newValues: SectionedValues<S, V>)
      modifies this`hookCalls
      ensures storedValues == old(storedValues)
      ensures |diff(old(storedValues), newValues)| == 0 ==> hookCalls == old(hookCalls)
      ensures |diff(old(storedValues), newValues)| > 0 ==>
                hookCalls == old(hookCalls) + [HookCall(old(storedValues), newValues, diff(old(storedValues), newValues))]
      ensures old(HookDiffsNonEmpty()) ==> HookDiffsNonEmpty()
    {
      var oldValues := storedValues;
      var changes := diff(oldValues, newValues);
      if |changes| > 0 {
        ProcessChanges(newValues, changes);
      }
    }

    /** The `sectionedValues` setter: the same path as `SetSectionedValues`. */
    method AssignSectionedValues(newValues: SectionedValues<S, V>)
      modifies this`hookCalls
      ensures storedValues == old(storedValues)
      ensures |diff(old(storedValues), newValues)| == 0 ==> hookCalls == old(hookCalls)
      ensures |diff(old(storedValues), newValues)| > 0 ==>
                hookCalls == old(hookCalls) + [HookCall(old(storedValues), newValues, diff(old(storedValues), newValues))]
    {
      SetSectionedValues(newValues);
    }

    /** `buildSectionedValues`: `sectionIndex` empty sections numbered
        0, 1, ..., then section `sectionIndex` holding `values`. A negative
        `sectionIndex` makes the range `0..<sectionIndex` trap, hence `nat`. */
    static function BuildSectionedValues(values: seq<V>, sectionIndex: nat): (r: SectionedValues<int, V>)
      ensures |r| == sectionIndex + 1
      ensures forall i :: 0 <= i < sectionIndex ==> r[i] == (i, [])
      ensures r[sectionIndex] == (sectionIndex, values)
    {
      seq(sectionIndex, i => (i, [])) + [(sectionIndex, values)]
    }

    // ---- The guards as written ----

    /** `isValidSection` as written: `section < count`, with no lower bound.
        It accepts every negative section. */
    predicate IsValidSectionAsWritten(section: int)
      reads this
      ensures section < 0 ==> IsValidSectionAsWritten(section)
      ensures 0 <= section ==> (IsValidSectionAsWritten(section) <==> section < |storedValues|)
    {
      section < |storedValues|
    }

    /** `isValidIndexPath` as written: the as-written section guard, then a
        subscript that traps on a negative section, then `row < count` with
        no lower bound. */
    function IsValidIndexPathAsWritten(p: IndexPath): (r: Outcome<bool>)
      reads this
      ensures r.Returns? ==> r.value == (IsValidIndexPath(p) || (0 <= p.section < |storedValues| && p.row < 0))
    {
      if !IsValidSectionAsWritten(p.section) then Returns(false)
      else if p.section < 0 then Traps
      else Returns(p.row < |storedValues[p.section].1|)
    }

    /** `value(atIndexPath:)` as written: guarded by the as-written
        `isValidIndexPath`, then a row subscript that traps on a negative row. */
    function ValueAtIndexPathAsWritten(p: IndexPath): (r: Outcome<Option<V>>)
      reads this
      ensures r.Returns? ==> r.value == ValueAtIndexPath(p)
    {
      match IsValidIndexPathAsWritten(p)
      case Traps => Traps
      case Returns(false) => Returns(None)
      case Returns(true) => if p.row < 0 then Traps else Returns(Some(storedValues[p.section].1[p.row]))
    }

    /** `section(atIndexPath:)` as written: guarded by the as-written
        `isValidSection`, then `value(forSection:)`, whose subscript traps on
        a negative section. */
    function SectionAtIndexPathAsWritten(p: IndexPath): (r: Outcome<Option<S>>)
      reads this
      ensures r.Returns? ==> r.value == SectionAtIndexPath(p)
    {
      if !IsValidSectionAsWritten(p.section) then Returns(None)
      else if p.section < 0 then Traps
      else Returns(Some(storedValues[p.section].0))
    }
  }

  // ---- Lemmas ----

  /** The counts bound the lookups: within a valid section a row is found
      exactly below `numberOfObjects`, a section is found exactly below
      `numberOfSections`, and on non-negative sections the corrected guard
      is line 19's `section < count`. */
  lemma CountsBoundLookups<S, V>(c: AbstractDiffCalculator<S, V>, s: int, r: int)
    ensures c.IsValidSection(s) ==>
              (c.ValueAtIndexPath(IndexPath(s, r)).Some? <==> 0 <= r < c.NumberOfObjects(s))
    ensures c.SectionAtIndexPath(IndexPath(s, r)).Some? <==> 0 <= s < c.NumberOfSections()
    ensures 0 <= s ==> (c.IsValidSection(s) <==> s < c.NumberOfSections())
  {
  }

  /** Reverse lookups land on what they looked for: the position found for a
      section holds that section, and the position found for a value holds
      that value in that section. */
  lemma ReverseLookupRoundTrip<S, V>(c: AbstractDiffCalculator<S, V>, value: V, section: S)
    ensures c.IndexPathForSection(section).Some? ==>
              c.SectionAtIndexPath(c.IndexPathForSection(section).value) == Some(section)
    ensures c.IndexPathForValue(value, section).Some? ==>
              var p := c.IndexPathForValue(value, section).value;
              c.ValueAtIndexPath(p) == Some(value) && c.SectionAtIndexPath(p) == Some(section)
  {
  }

  /** When section identifiers and the rows of each section are unique, the
      reverse lookups invert the forward ones. */
  lemma ForwardLookupInverted<S, V>(c: AbstractDiffCalculator<S, V>, p: IndexPath)
    requires DistinctSections(c.storedValues) && DistinctRows(c.storedValues)
    requires c.IsValidIndexPath(p)
    ensures c.IndexPathForSection(c.ValueForSection(p.section)) == Some(IndexPath(p.section, 0))
    ensures c.IndexPathForValue(c.ValueAtIndexPath(p).value, c.SectionAtIndexPath(p).value) == Some(p)
  {
  }

  /** Without uniqueness the first match wins: a value held, under a
      repeated identifier, only in a section after the first one with that
      identifier is not found, though the forward accessors show it there. */
  lemma LaterDuplicateSectionNotSearched<S, V>(c: AbstractDiffCalculator<S, V>, s: S, v: V, i: int, j: int)
    requires 0 <= i < j < |c.storedValues|
    requires c.storedValues[i].0 == s && c.storedValues[j].0 == s && v in c.storedValues[j].1
    requires forall k :: 0 <= k < |c.storedValues| && k != j && c.storedValues[k].0 == s ==> v !in c.storedValues[k].1
    ensures exists row :: c.ValueAtIndexPath(IndexPath(j, row)) == Some(v)
    ensures c.SectionAtIndexPath(IndexPath(j, 0)) == Some(s)
    ensures c.IndexPathForValue(v, s) == None
  {
    var row :| 0 <= row < |c.storedValues[j].1| && c.storedValues[j].1[row] == v;
    assert c.ValueAtIndexPath(IndexPath(j, row)) == Some(v);
  }

  /** A calculator holding `BuildSectionedValues(values, k)` shows `values`
      as the rows of section `k` and nothing else. */
  lemma BuiltValuesLookups<V>(c: AbstractDiffCalculator<int, V>, values: seq<V>, k: nat, p: IndexPath)
    requires c.storedValues == AbstractDiffCalculator<int, V>.BuildSectionedValues(values, k)
    ensures c.NumberOfSections() == k + 1
    ensures c.IndexPathForSection(k) == Some(IndexPath(k, 0))
    ensures c.ValueAtIndexPath(p) == if p.section == k && 0 <= p.row < |values| then Some(values[p.row]) else None
  {
  }

  /** Finding: section -1 passes the as-written section guard on every
      state, and every accessor that then subscripts the sections traps. */
  lemma NegativeSectionTraps<S, V>(c: AbstractDiffCalculator<S, V>)
    ensures c.IsValidSectionAsWritten(-1) && !c.IsValidSection(-1)
    ensures c.IsValidIndexPathAsWritten(IndexPath(-1, 0)) == Traps
    ensures c.ValueAtIndexPathAsWritten(IndexPath(-1, 0)) == Traps
    ensures c.SectionAtIndexPathAsWritten(IndexPath(-1, 0)) == Traps
  {
  }

  /** Finding: a negative row passes the as-written row guard, and
      `value(atIndexPath:)` then subscripts out of range. */
  lemma NegativeRowTraps<S, V>(c: AbstractDiffCalculator<S, V>)
    requires |c.storedValues| > 0
    ensures c.IsValidIndexPathAsWritten(IndexPath(0, -1)) == Returns(true)
    ensures !c.IsValidIndexPath(IndexPath(0, -1))
    ensures c.ValueAtIndexPathAsWritten(IndexPath(0, -1)) == Traps
  {
  }

  /** The corrected accessors never trap, and agree with the code as written
      wherever the code as written returns. */
  lemma CorrectedGuardsAgree<S, V>(c: AbstractDiffCalculator<S, V>, p: IndexPath)
    ensures c.IsValidSection(p.section) <==> 0 <= p.section && c.IsValidSectionAsWritten(p.section)
    ensures c.IsValidIndexPathAsWritten(p) == Traps <==> p.section < 0
    ensures c.SectionAtIndexPathAsWritten(p) == Traps <==> p.section < 0
    ensures c.ValueAtIndexPathAsWritten(p) == Traps <==> p.section < 0 || (c.IsValidIndexPathAsWritten(p) == Returns(true) && p.row < 0)
    ensures c.ValueAtIndexPathAsWritten(p).Returns? ==> c.ValueAtIndexPathAsWritten(p).value == c.ValueAtIndexPath(p)
    ensures c.SectionAtIndexPathAsWritten(p).Returns? ==> c.SectionAtIndexPathAsWritten(p).value == c.SectionAtIndexPath(p)
    ensures p.section < 0 || p.row < 0 ==> c.ValueAtIndexPath(p) == None
    ensures p.section < 0 ==> c.SectionAtIndexPath(p) == None
  {
  }
}
