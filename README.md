# Dwifft diff calculator state holder, in Dafny

This project models `AbstractDiffCalculator`, the parent class of Dwifft's
table and collection view diff calculators. The calculator holds one current
sectioned collection (`_sectionedValues`), which is an ordered list of
`(Section, [Value])` pairs. Around it the class offers:

- read accessors: the section count, a section's row count, the section
  identifier at an index, and the value at a (section, row) position;
- bounds checks that return a Bool, and lookups that return nil;
- first-match reverse lookups: the position of a section, and the position of
  a value within a section;
- `setSectionedValues`, which diffs the held state against a new one and hands
  a non-empty diff to the overridable `processChanges` hook;
- the helper `buildSectionedValues`, which pads a flat value list out to a
  sectioned one.

Files:

- `Optional.dfy` holds `Option`, Swift's optional, and `Outcome`. `Outcome` is
  used only by the members that model the code as written: it tells a
  returned value from a trapping subscript.
- `Sectioned.dfy` holds the value types and the first-match search `IndexOf`.
  The value types are `SectionedValues` (a sequence of pairs), `IndexPath`
  (a plain `(section, row)` pair; the row/item naming split between platforms
  is one field) and `SectionedDiffStep`.
- `DiffCalculator.dfy` holds the class `AbstractDiffCalculator` and the lemmas
  about it.

Indices are `int`, as Swift's `Int`. The sectioned diff engine (`Dwifft.diff`)
is not part of this model. It is a function given to the constructor and held
in a `const`, and the model only looks at the size of its result. The
`processChanges` hook is modelled by its effect on a ghost log, `hookCalls`.
Each entry records the state the calculator still held during the call, plus
the new state and the diff the hook received.

Two behaviours of the code are worth stating outright:

- `setSectionedValues` (Dwifft/AbstractDiffCalculator.swift:129-136) never
  writes `_sectionedValues`. Replacing the state is left to the adapter's
  `processChanges`, so with an empty diff the held state stays as it was.
- `numberOfObjects(inSection:)` (lines 63-65) and `value(forSection:)`
  (lines 49-51) do no bounds check, so in the model they carry a
  precondition: the section must be valid.

## Model

| member | source | states |
|---|---|---|
| `Sectioned.Sections` | Dwifft/AbstractDiffCalculator.swift:96 | the identifier list has one entry per section, each the identifier of that section, in order |
| `Sectioned.IndexOf` | Dwifft/AbstractDiffCalculator.swift:109 | nil exactly when the element is absent; otherwise an in-range index holding it, with no earlier index holding it (first match) |
| `DiffCalculator.AbstractDiffCalculator.constructor` | Dwifft/AbstractDiffCalculator.swift:14-16 | the calculator starts out holding the initial sectioned values, and no hook call has happened yet |
| `DiffCalculator.AbstractDiffCalculator.NumberOfSections` | Dwifft/AbstractDiffCalculator.swift:39-41 | the count of section identifiers; the valid sections are exactly `0` up to it |
| `DiffCalculator.AbstractDiffCalculator.IsValidSection` | Dwifft/AbstractDiffCalculator.swift:18-20 | the as-written guard `section < count` plus a `0 <=` lower bound the source lacks (see Findings) |
| `DiffCalculator.AbstractDiffCalculator.ValueForSection` | Dwifft/AbstractDiffCalculator.swift:49-51 | requires a valid section (the source does no bounds check); the result is the identifier of that section; `indexPath(forSection:)` finds it at this section or an earlier one, and at this one when identifiers are unique |
| `DiffCalculator.AbstractDiffCalculator.NumberOfObjects` | Dwifft/AbstractDiffCalculator.swift:63-65 | requires a valid section (no bounds check in the source); the valid paths in that section are exactly the rows `0` up to the result |
| `DiffCalculator.AbstractDiffCalculator.IsValidIndexPath` | Dwifft/AbstractDiffCalculator.swift:22-33 | false whenever the section is invalid, with the row count not read; on a valid section, true exactly when the row is below that section's row count; adds the `0 <=` lower bound on the row that the source lacks (see Findings) |
| `DiffCalculator.CountsBoundLookups` | Dwifft/AbstractDiffCalculator.swift:18-92 | within a valid section, `value(atIndexPath:)` finds a value exactly at rows below `numberOfObjects`; `section(atIndexPath:)` finds a section exactly below `numberOfSections`; on non-negative sections the corrected guard is exactly line 19's `section < count` |
| `DiffCalculator.AbstractDiffCalculator.ValueAtIndexPath` | Dwifft/AbstractDiffCalculator.swift:73-84 | nil exactly when the path is not valid; otherwise the value stored at that section and row |
| `DiffCalculator.AbstractDiffCalculator.SectionAtIndexPath` | Dwifft/AbstractDiffCalculator.swift:87-92 | nil exactly when the path's section is not valid (the row is never checked); otherwise the same identifier `value(forSection:)` gives |
| `DiffCalculator.AbstractDiffCalculator.IndexPathForSection` | Dwifft/AbstractDiffCalculator.swift:95-101 | nil exactly when no section has the identifier; otherwise row 0 of the smallest section index holding it |
| `DiffCalculator.AbstractDiffCalculator.IndexPathForValue` | Dwifft/AbstractDiffCalculator.swift:104-115 | nil when the section is absent or the value is absent from the rows of the first section with that identifier; otherwise that section and the smallest row holding the value |
| `DiffCalculator.ReverseLookupRoundTrip` | Dwifft/AbstractDiffCalculator.swift:87-115 | a position found by a reverse lookup, read back with the forward accessors, gives the section and value that were looked up |
| `DiffCalculator.ForwardLookupInverted` | Dwifft/AbstractDiffCalculator.swift:95-115 | with unique section identifiers and unique rows per section, the reverse lookups of what a valid path holds return that path |
| `DiffCalculator.LaterDuplicateSectionNotSearched` | Dwifft/AbstractDiffCalculator.swift:104-111 | on every state, a value held under a repeated identifier only in a section after the first one with that identifier is shown there by the forward accessors but not found by `indexPath(forValue:inSection:)`; only the first match is searched |
| `DiffCalculator.AbstractDiffCalculator.ProcessChanges` | Dwifft/AbstractDiffCalculator.swift:145-147 | the hook call is recorded with the state held during the call, the new state and the diff; the base hook leaves the held state alone |
| `DiffCalculator.AbstractDiffCalculator.SetSectionedValues` | Dwifft/AbstractDiffCalculator.swift:129-136 | the hook fires exactly when the diff of old and new state is non-empty, with that diff and the new state, while the old state is held; the method never writes the held state; the log keeps holding only non-empty diffs |
| `DiffCalculator.AbstractDiffCalculator.AssignSectionedValues` | Dwifft/AbstractDiffCalculator.swift:120-127 | assigning the property has the same effect as `setSectionedValues` |
| `DiffCalculator.AbstractDiffCalculator.BuildSectionedValues` | Dwifft/AbstractDiffCalculator.swift:138-141 | exactly `k+1` sections; sections `0..k-1` are numbered by position and have no rows; section `k` holds the values unchanged |
| `DiffCalculator.BuiltValuesLookups` | Dwifft/AbstractDiffCalculator.swift:138-141 | a calculator holding the built structure has `k+1` sections, finds section `k` at row 0, and shows exactly the values as the rows of section `k` |
| `DiffCalculator.AbstractDiffCalculator.IsValidIndexPathAsWritten` | Dwifft/AbstractDiffCalculator.swift:18-33 | as written, whenever the check returns without trapping, it agrees with the corrected check, except that it accepts a negative row |
| `DiffCalculator.AbstractDiffCalculator.ValueAtIndexPathAsWritten` | Dwifft/AbstractDiffCalculator.swift:73-84 | as written, whenever the lookup returns without trapping, it returns what the corrected lookup returns |
| `DiffCalculator.AbstractDiffCalculator.IsValidSectionAsWritten` | Dwifft/AbstractDiffCalculator.swift:18-20 | as written, the guard accepts every negative section, and on non-negative sections exactly those below the count |
| `DiffCalculator.AbstractDiffCalculator.SectionAtIndexPathAsWritten` | Dwifft/AbstractDiffCalculator.swift:87-92 | as written, whenever the lookup returns without trapping, it returns what the corrected lookup returns |
| `DiffCalculator.NegativeSectionTraps` | Dwifft/AbstractDiffCalculator.swift:18-92 | on every state, section -1 passes the as-written section guard, and the as-written path check, value lookup and section lookup all trap |
| `DiffCalculator.NegativeRowTraps` | Dwifft/AbstractDiffCalculator.swift:22-84 | on a non-empty state, path (0, -1) passes the as-written path check, and the as-written lookup traps |
| `DiffCalculator.CorrectedGuardsAgree` | Dwifft/AbstractDiffCalculator.swift:18-92 | the corrected section guard is the as-written one plus `0 <=`; the as-written path check and section lookup trap exactly on a negative section, and the value lookup also on a negative row that passed its guard; everywhere else both lookups agree with the corrected ones, which answer nil for negative indices |

## Left out

- The sectioned diff engine (`Dwifft.diff`) and the LCS sequence diff under it are not part of this model. The diff is a given function, and only whether its result is empty matters here. Nothing is claimed about minimality or about applying a diff.
- `ProcessChanges`: the concrete table and collection view adapters override it. Their overrides replace the held state and drive the animations; they are not part of this model. The base body, a deliberate `fatalError("override me")`, is modelled as a hook that records its call and writes nothing.
- `SetSectionedValues`: the `animated` flag and the `completion` callback are only passed through to the hook and are dropped.
- The `#if os(...)` platform conditionals collapse into the one `IndexPath` row field.
- The view controller in the example app only forwards to the accessors, so it is left out.
- Threading and UI timing are left out; the class is used from one thread.
- BuildSectionedValues: `sectionIndex` is a `nat`, so the case the source does not handle is excluded: a negative `sectionIndex` makes the range `0..<sectionIndex` at line 139 trap, and that trap is not modelled.
- Swift's `Equatable` `==`, used by `index(where:)` (line 96) and `index(of:)` (line 109), becomes Dafny equality on `S` and `V`. For a type whose `==` is coarser than identity, or not reflexive (a floating-point NaN), the lookups and `ReverseLookupRoundTrip` hold in the source only up to that `==`.
- Swift `Int` is 64 bits wide. Counts and indices are unbounded here, because nothing in the class does arithmetic on them.

## Findings

| source | as written | input that shows it | evidently intended | confidence | as-written member | corrected member |
|---|---|---|---|---|---|---|
| Dwifft/AbstractDiffCalculator.swift:18-20 | `isValidSection` tests only `section < count`, with no lower bound | any state and section -1: the guard passes, and the subscript in `isValidIndexPath` (line 32), `value(atIndexPath:)` and `value(forSection:)` via `section(atIndexPath:)` traps | a negative section is invalid, so the lookups answer nil | medium, not executed (the trap assumes the `SectionedValues` subscript forwards to a Swift array; that type is not part of this model) | `DiffCalculator.NegativeSectionTraps` | `DiffCalculator.CorrectedGuardsAgree` |
| Dwifft/AbstractDiffCalculator.swift:32 | `isValidIndexPath` tests only `row < rowCount`, with no lower bound | any non-empty state and path (0, -1): the check returns true, and the row subscript at line 83 traps | a negative row is invalid, so `value(atIndexPath:)` answers nil | medium, not executed | `DiffCalculator.NegativeRowTraps` | `DiffCalculator.CorrectedGuardsAgree` |
