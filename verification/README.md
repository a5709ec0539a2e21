# Content diff engine of craft-content-diff

This project models the comparison engine of the Craft CMS plugin
craft-content-diff (`src/services/DiffService.php`). The engine takes two
snapshots of a site's entries, the current environment's and a remote one's.
Each snapshot maps a section handle to a list of exported entries. For every
section the engine reports:

- the entries only the remote side has (`added`);
- the entries only the current side has (`removed`);
- a field-by-field diff of the entries both sides have (`changed`, keyed by
  uid).

Fields that hold Matrix-style blocks are expanded into per-block labels such
as `body — Block 2 (image): caption`.

Modules, in dependency order:

- `OrderedMap` (`ordered_map.dfy`): PHP arrays with string keys, as ordered
  lists of pairs. It provides:
  - lookup (`Get`) and assignment (`Put`: overwrite in place, or append);
  - `array_keys` and `array_values`;
  - `array_unique(array_merge(...))` (`UnionKeys`);
  - `foreach` folds that assign one key per step (`PutEach`, `PutPresent`,
    `MergeInto`).
- `PhpValue` (`php_value.dfy`): the values an export holds. These are null,
  booleans, integers, strings and arrays. The module also holds PHP's
  `(string)` cast.
- `ValueEquality` (`value_equality.dfy`): `valueChanged`, `arraysEqualDeep` and
  `isMatrixLike`, as the pure functions `ValueChanged`, `ArraysEqualDeep` and
  `IsMatrixLike`.
- `BlockDiffer` and `BlockDifferFacts` (`block_differ.dfy`,
  `block_differ_facts.dfy`): `expandMatrixFieldDiffs`.
  - The functions follow its loops one iteration at a time.
  - The methods run the loops and are proved to compute those functions.
  - The facts module proves what the expansion promises.
- `EntryDiffer` (`entry_differ.dfy`): `entryDiff`. It has the same layout:
  the specification functions, the looping methods and the lemmas.
- `RecordIndex` (`record_index.dfy`): `indexByUid`.
- `SectionComparator` and `SectionComparatorFacts` (`section_comparator.dfy`,
  `section_comparator_facts.dfy`): `compare`.
  - The function `SectionOf` takes the record comparer as a parameter `diff`.
  - `CompareOf` instantiates `diff` with `entryDiff` (`EntryChangeOf`).
  - The method `Compare` is proved to return `CompareOf`.
  - Each section lemma holds for every record comparer, so it holds for
    `entryDiff` in particular.

Every imperative routine of the source is a `method` with the source's loop.
Its `ensures` ties the result to a specification function. The properties the
source promises are then proved about that function as lemmas.

Several lemmas assume `WellFormed`, which says that no array repeats a key.
PHP arrays always satisfy this. It is a hypothesis of those lemmas only. No
operation requires it.

## Model

| member | source | states |
|---|---|---|
| OrderedMap.PutSpec | src/services/DiffService.php:366 | `$m[$k] = $v` makes `$m[$k]` read `$v`, leaves every other key unchanged, and keeps keys distinct |
| OrderedMap.PutInPlace | src/services/DiffService.php:366 | assigning to an existing key keeps its position and the array's length |
| OrderedMap.PutAppend | src/services/DiffService.php:366 | assigning to a new key appends it at the end |
| OrderedMap.UnionKeysSpec | src/services/DiffService.php:321 | `array_unique(array_merge(array_keys($a), array_keys($b)))` lists each key of either array exactly once, and nothing else |
| OrderedMap.DedupKeepsPrefix | src/services/DiffService.php:321 | `array_unique` of a merge whose first part repeats nothing keeps that first part, in its order, at the front |
| OrderedMap.DedupSpec | src/services/DiffService.php:321 | `array_unique` leaves no repeated string and keeps exactly the strings it was given |
| OrderedMap.PutShape | src/services/DiffService.php:366 | assigning to a key that is present replaces the pair at its position; assigning to a new key appends it |
| OrderedMap.MergeInto | src/services/DiffService.php:394-396 | the `foreach ($expanded as $k => $p) $out[$k] = $p` loop computes the key-by-key merge `MergeAll` |
| OrderedMap.MergeAllGet | src/services/DiffService.php:394-396 | after the merge, every key of the merged-in array reads its value there |
| OrderedMap.MergeAllSpec | src/services/DiffService.php:394-396 | the merge's keys are the keys of both arrays; it repeats no key if `$out` did not; every pair comes from one of the two; keys not merged in keep their old value |
| OrderedMap.PutEachGet | src/services/DiffService.php:324-348 | after a `foreach` that assigns `$m[$k] = f($k)`, each visited key reads `f($k)` and no other key is present |
| OrderedMap.PutPresentSpec | src/services/DiffService.php:337-342 | after a `foreach` that assigns only non-null results, each visited key reads its result if that is not null and is absent otherwise |
| PhpValue.IntToStringRoundTrip | src/services/DiffService.php:436 | the `(string)` cast of an integer is decimal text that parses back to the same integer |
| PhpValue.IntToStringInjective | src/services/DiffService.php:436 | two integers cast to the same string exactly when they are equal |
| ValueEquality.ValueChanged | src/services/DiffService.php:425-437 | `valueChanged` itself. Its promises are the lemmas `ValueUnchangedReflexive`, `ValueChangedSymmetric`, `ValueUnchangedTransitive`, `ScalarsCompareAsStrings` and `ArrayVersusScalarChanged` |
| ValueEquality.ArraysEqualDeep | src/services/DiffService.php:442-461 | `arraysEqualDeep` itself. Its promises are the lemmas `EntriesMatchIff`, `KeyOrderIgnored` and the `ElementsEqual` reflexive, symmetric and transitive lemmas |
| ValueEquality.IsMatrixLike | src/services/DiffService.php:466-480 | `isMatrixLike` itself. Its promise is the lemma `IsMatrixLikeIff` |
| ValueEquality.ValueUnchangedReflexive | src/services/DiffService.php:425-431 | `valueChanged($x, $x)` is false, and `arraysEqualDeep($a, $a)` holds |
| ValueEquality.ValueChangedSymmetric | src/services/DiffService.php:425-461 | `valueChanged($a, $b) == valueChanged($b, $a)` |
| ValueEquality.ValueUnchangedTransitive | src/services/DiffService.php:425-461 | "unchanged" is transitive, so it is an equivalence on well-formed values |
| ValueEquality.KeyOrderIgnored | src/services/DiffService.php:442-461 | two arrays holding the same key/value pairs in any order are unchanged |
| ValueEquality.KeyOrderExample | src/services/DiffService.php:442-461 | an illustration of `KeyOrderIgnored` on two concrete arrays: `['a'=>1,'b'=>2]` against `['b'=>2,'a'=>1]` is unchanged, and so is `[]` against `[]` |
| ValueEquality.EntriesMatchIff | src/services/DiffService.php:447-460 | the loop of `arraysEqualDeep` succeeds exactly when every key of `$a` is in `$b` with an element-equal value |
| ValueEquality.ElementsEqualReflexive | src/services/DiffService.php:452-457 | nested elements equal themselves under the strict leaf comparison |
| ValueEquality.ElementsEqualSymmetric | src/services/DiffService.php:452-457 | nested element equality is symmetric |
| ValueEquality.ElementsEqualTransitive | src/services/DiffService.php:452-457 | nested element equality is transitive |
| ValueEquality.ScalarsCompareAsStrings | src/services/DiffService.php:436 | two non-arrays are changed exactly when their `(string)` casts differ |
| ValueEquality.ArrayVersusScalarChanged | src/services/DiffService.php:433-434 | an array against a non-array is always changed |
| ValueEquality.IntegerEqualsItsString | src/services/DiffService.php:436 | `5` against `"5"` is unchanged, in either order, for every integer |
| ValueEquality.IntegersCompareByValue | src/services/DiffService.php:436 | two integers are changed exactly when they differ |
| ValueEquality.CastQuirks | src/services/DiffService.php:436 | `null`, `false` and `""` are mutually unchanged, `true` equals `"1"` and `1`, and `5` differs from `"6"` and from `"05"` |
| ValueEquality.NestedLeavesAreStrict | src/services/DiffService.php:456 | inside arrays, leaves are compared with `!==`, so `[5]` against `["5"]` and `['x'=>null]` against `['x'=>'']` are changed |
| ValueEquality.IsMatrixLikeIff | src/services/DiffService.php:466-480 | `isMatrixLike($v)` holds exactly when `$v` is an array whose every element is an array with a non-null `type` |
| ValueEquality.AllBlocksIff | src/services/DiffService.php:471-478 | the loop of `isMatrixLike` accepts exactly when every element is a block |
| BlockDiffer.ExpandMatrixFieldDiffs | src/services/DiffService.php:489-541 | the method returns `Expand(handle, current, remote, depth)` |
| BlockDiffer.DiffPosition | src/services/DiffService.php:496-539 | one iteration of the loop over positions performs one `PositionStep` |
| BlockDiffer.DiffAttributes | src/services/DiffService.php:513-520 | the loop over `title`/`slug`/`enabled`/`collapsed` performs `AttributeSteps` over all four |
| BlockDiffer.DiffSubFields | src/services/DiffService.php:521-539 | the loop over the sub-field handles performs `SubFieldSteps` over all of them |
| BlockDiffer.DiffSubField | src/services/DiffService.php:522-538 | one sub-field iteration performs one `SubFieldStep` |
| BlockDiffer.MergeExpansion | src/services/DiffService.php:529-535 | the nested expansion is merged into `$out`, with the opaque pair as fallback when it is empty |
| BlockDifferFacts.ExpandSound | src/services/DiffService.php:489-541 | the expansion repeats no label; every pair in it is changed; every label starts with `"{handle} — Block {i+1} ("` for a position `i` below the larger block count |
| BlockDifferFacts.HeadsDistinct | src/services/DiffService.php:502-512 | no label starts with the block heads of two different positions |
| BlockDifferFacts.ExpandTypeEntry | src/services/DiffService.php:498-508 | the `(type)` label of position `i` is present exactly when `i` is a position of either side and the stringified types differ, and it then holds the two raw type values, not their string forms |
| BlockDifferFacts.TypeEntryChanged | src/services/DiffService.php:500-507 | when the stringified types differ, the raw type pair is changed |
| BlockDifferFacts.AttributeStepsGrow | src/services/DiffService.php:514-520 | attribute entries keep what was there, and each one added is a changed pair under the block prefix |
| BlockDifferFacts.AttributeStepSpec | src/services/DiffService.php:515-519 | a changed attribute is stored as the pair of its two values under `"{prefix}: {attribute}"` and no other label changes; an unchanged one adds nothing |
| BlockDifferFacts.AttributeStepsReport | src/services/DiffService.php:514-520 | every one of `title`, `slug`, `enabled`, `collapsed` whose two values differ gets its `"{prefix}: {attribute}"` entry, holding the pair of its two values |
| BlockDifferFacts.SubFieldStepReports | src/services/DiffService.php:524-538 | a changed sub-field is reported under `"{prefix}: {sub-field}"` or through a nested entry whose label starts with that label followed by ` — Block ` |
| BlockDifferFacts.SubFieldStepsReport | src/services/DiffService.php:521-539 | every changed sub-field of the union of both blocks' `fields` is reported, as one pair or through its nested expansion |
| BlockDifferFacts.BlockRestReports | src/services/DiffService.php:512-539 | one block reports every changed attribute under its own label and every changed sub-field as a pair or through its expansion |
| BlockDifferFacts.PositionsComplete | src/services/DiffService.php:497-540 | after the loop over positions, every changed attribute and every changed sub-field of position `i` is still reported |
| BlockDifferFacts.ExpandComplete | src/services/DiffService.php:496-540 | at every position up to the longer list, each changed attribute and each changed sub-field of the two blocks there is present in the expansion; later positions never remove it |
| BlockDifferFacts.UnchangedBlockAddsNothing | src/services/DiffService.php:496-539 | a position whose two blocks are unchanged adds no entry |
| BlockDifferFacts.ExpandUnchanged | src/services/DiffService.php:495-540 | when every position's blocks are unchanged the expansion is empty |
| BlockDifferFacts.ExpandSelf | src/services/DiffService.php:489-541 | expanding a value against itself yields nothing |
| BlockDifferFacts.SubFieldStepOpaque | src/services/DiffService.php:521-538 | an unchanged sub-field adds nothing; a changed one at depth 0 or without blocks is one opaque pair under `"{prefix}: {sub}"` and nothing else changes |
| BlockDifferFacts.MergedExpansionSpec | src/services/DiffService.php:528-535 | the nested labels are all copied; if there are none, the opaque pair is stored under the sub-field label; no other key changes |
| EntryDiffer.EntryDiff | src/services/DiffService.php:377-419 | the method returns `EntryChangeOf(current, remote)` |
| EntryDiffer.DiffKey | src/services/DiffService.php:383-408 | one iteration of the loop over the entry's keys performs one `KeyStep` |
| EntryDiffer.KeyStepSpec | src/services/DiffService.php:406-407 | a changed top-level key other than an array `fields` is stored as the opaque pair under the key itself and no other label changes; an unchanged one adds nothing |
| EntryDiffer.DiffFields | src/services/DiffService.php:386-403 | the loop over the field handles performs `FieldSteps` over the union of both sides' handles |
| EntryDiffer.DiffField | src/services/DiffService.php:387-402 | one field iteration performs one `FieldStep` |
| EntryDiffer.FieldStepSpec | src/services/DiffService.php:387-402 | an unchanged field adds nothing; a changed block field gets its expansion at depth 10, or the opaque pair when the expansion is empty, and no label outside the expansion and the handle changes; any other changed field is one opaque pair under its handle, and nothing else changes |
| EntryDiffer.FieldDiffsSound | src/services/DiffService.php:379-409 | `fieldDiffs` repeats no key, and every pair in it is changed |
| EntryDiffer.FieldDiffsComplete | src/services/DiffService.php:382-408 | every changed key is reported. For `fields` held as an array on both sides, every changed field is reported under its handle or a block label of it. Any other key is reported as one pair under its own name |
| EntryDiffer.EntryNullIff | src/services/DiffService.php:411-413 | `entryDiff` is null exactly when no key, and no field of `fields`, is changed |
| EntryDiffer.EntrySelf | src/services/DiffService.php:377-419 | `entryDiff($x, $x)` is null |
| EntryDiffer.EntryNullSymmetric | src/services/DiffService.php:377-419 | `entryDiff($a, $b)` is null exactly when `entryDiff($b, $a)` is |
| EntryDiffer.LooseFieldExample | src/services/DiffService.php:385-389 | a field `5` against `"5"` reports nothing, although the same `fields` arrays compared whole would be changed |
| RecordIndex.IndexByUid | src/services/DiffService.php:360-370 | the method returns `IndexOf(entries)` |
| RecordIndex.IndexShape | src/services/DiffService.php:360-370 | the index repeats no uid and is no longer than the list; each record is filed under its own string `uid` and comes from the list |
| RecordIndex.IndexLastWins | src/services/DiffService.php:362-368 | a uid is absent exactly when no entry has it as a string `uid`; otherwise the index holds the last entry with that uid |
| RecordIndex.IndexKeys | src/services/DiffService.php:363-367 | the index's keys are exactly the string uids of the list |
| SectionComparator.Compare | src/services/DiffService.php:319-352 | the method returns `CompareOf(current, remote)` |
| SectionComparator.CompareNext | src/services/DiffService.php:324-348 | one iteration of the loop over section handles stores that section's diff |
| SectionComparator.CompareSection | src/services/DiffService.php:325-348 | the body for one section returns `SectionOf` with `entryDiff` as comparer |
| SectionComparator.ChangedEntries | src/services/DiffService.php:336-342 | the loop over common uids keeps exactly the non-null entry diffs, keyed by uid |
| SectionComparator.DiffCommon | src/services/DiffService.php:337-341 | for one common uid, a non-null entry diff is stored under the uid and a null diff leaves `changed` as it was |
| SectionComparatorFacts.WithoutSpec | src/services/DiffService.php:332-333 | `array_diff` keeps exactly the uids of the first list that the second lacks, and repeats none when the first repeats none |
| SectionComparatorFacts.BothSpec | src/services/DiffService.php:334 | `array_intersect` keeps exactly the uids both lists hold, and repeats none when the first repeats none |
| SectionComparatorFacts.CompareSections | src/services/DiffService.php:321-326 | the result's keys are the union of both sides' section handles, once each; every handle holds the diff of its two lists, a missing side reading as `[]` |
| SectionComparatorFacts.OnlyRemoteSection | src/services/DiffService.php:325-348 | a section with no current entries lists every indexed remote record as added, and nothing as removed or changed |
| SectionComparatorFacts.OnlyCurrentSection | src/services/DiffService.php:325-348 | a section with no remote entries lists every indexed current record as removed, and nothing as added or changed |
| SectionComparatorFacts.SectionAdded | src/services/DiffService.php:330-345 | `added` holds exactly one record, the remote index's, for each uid only the remote side has, and nothing else; the records follow the order of the remote index |
| SectionComparatorFacts.AddedSound | src/services/DiffService.php:332-345 | each added record carries a uid only the remote side has, and is the remote record for it |
| SectionComparatorFacts.AddedComplete | src/services/DiffService.php:332-345 | each uid only the remote side has contributes its record to `added` |
| SectionComparatorFacts.AddedDistinct | src/services/DiffService.php:332-345 | `added` lists no uid twice |
| SectionComparatorFacts.RecordsOfWithout | src/services/DiffService.php:332-333 | mapping the uids `array_diff` keeps to their records gives the index's records in index order, skipping those whose uid the other side holds |
| SectionComparatorFacts.SectionRemoved | src/services/DiffService.php:333-346 | `removed` holds exactly one record, the current index's, for each uid only the current side has, and nothing else; the records follow the order of the current index |
| SectionComparatorFacts.SectionChanged | src/services/DiffService.php:334-342 | `changed` repeats no uid. Its uids are uids both sides have, each with the non-null entry diff of its two records. Every uid both sides have is present exactly when that diff is not null |
| SectionComparatorFacts.SectionPartsDisjoint | src/services/DiffService.php:330-347 | `added`, `removed` and `changed` never share a uid |
| SectionComparatorFacts.SectionSelf | src/services/DiffService.php:325-348 | a section compared with itself adds, removes and changes nothing |
| SectionComparatorFacts.CompareSelf | src/services/DiffService.php:319-352 | a snapshot compared with itself reports every section handle with nothing in it |

## Left out

- The database side of the service is not part of this model: reading
  entries through Craft's ORM, batching, and serialising field values. These
  are foreign calls.
- Fetching the remote snapshot is not part of this model: HTTP, JSON decoding,
  status-line parsing and the last-error plumbing. These are I/O.
- Asset-label enrichment of a compare result is not part of this model. It
  looks assets up in the database.
- The fixture used by the user interface (`getFakeCompareResult`) is not part
  of this model.
- Floats are not modelled, nor is PHP's float-to-string cast.
- Integers are unbounded. PHP's 64-bit overflow into floats is not modelled.
- Array keys are always strings. PHP turns numeric-string keys such as `"5"`
  into integer keys, so with numeric uids or section handles the index, the
  `changed` map and the result are keyed by integers. The `uid` value
  itself stays a string and `array_diff`/`array_intersect` compare as
  strings, so which entries are added, removed or changed is the same; only
  the key type differs, and the model does not capture it.
- Entries are arrays by construction. In PHP a string, number or null
  entry reads its `uid` as null without an error, so `indexByUid` skips
  it; the model, which has no such entries, never indexes one either.
- Section values are lists of entries by construction. A remote snapshot
  whose section value is a scalar (`"news": "x"`) reaches `indexByUid`,
  which takes an `array`, and PHP raises a `TypeError`; that error path is
  not modelled.
- SectionComparator.Record: reads a missing uid as `[]`. In the source every
  uid it looks up is a key of the index it reads, so the default is never
  used.
- SectionComparatorFacts.SectionSelf: stated for `entryDiff` only. The other
  section lemmas are stated for any record comparer.
- ValueEquality.ValueChangedSymmetric: like the other lemmas about nested
  arrays, it assumes `WellFormed`, meaning that no array repeats a key, which
  every PHP array satisfies.
