# ESP bill-of-materials store, modelled in Dafny

This project models `ESPDatabase`, a SQLite-backed bill-of-materials (BOM)
store for electric submersible pumps (ESPs). The store has three tiers:

- **parts** carry a name, a category, a material, a weight, a critical flag and
  a unit of measure;
- **assemblies** list parts through link rows. Each link row has a quantity
  and a BOM level, both 1 by default;
- **ESP units** carry a specification and list assemblies.

The model keeps the five tables as values keyed by their primary keys:

- `parts`, `assemblies`, `assembly_parts` and `esp_units` are `map`s;
- `esp_assemblies` is a `set` of pairs.

The model covers:

- every read operation, with the joins and `ORDER BY` clauses of its SQL;
- every create, update, delete and link operation, including the
  all-or-nothing rollback of `create_assembly` and `create_esp`;
- the flattened BOM of `get_esp`, where the first line of each part wins;
- the counts of `get_bom_summary`.

The modules:

- `Ordering` (`ordering.dfy`): SQLite's BINARY text collation, `StrLess`, and
  a sort of a finite set by any strict total order, `SortSet`. `SortSet` is
  proved to give the only ascending listing of the set.
- `Schema` (`schema.dfy`): the rows and tables; the optional-argument patches
  of `update_part` and `update_esp`; the errors; and two invariants:
  - `Consistent`: every link row names existing rows, as the declared foreign
    keys require;
  - `PositiveQuantities`: every link quantity is at least 1.
- `Bom` (`bom.dfy`): the de-duplicating flattening and the category counts,
  over lists of resolved part lines.
- `Queries` (`queries.dfy`): every reader as a function of the tables.
- `Transitions` (`transitions.dfy`): every mutator as a function from the
  tables before the call to the tables after it and the returned value,
  plus lemmas relating the operations.
- `Database` (`database.dfy`): the `EspDatabase` class.
  - Its five fields are the tables.
  - Each mutating method is proved to produce exactly the `Transitions` step.
  - The readers that loop in Python are methods proved equal to their
    `Queries` functions. These are the per-assembly loop of
    `get_all_assemblies`, the `seen_parts` loop of `get_esp` and the
    `by_category` and summing loops of `get_bom_summary`.
- `Findings` (`findings.dfy`): the two deletes that break referential
  integrity, with corrected versions.

Outcomes follow the source's conventions:

- a returned dict is `Ok(value)` or `Some(value)`;
- a returned `None` is `NotFound` or `None`;
- a raised `ValueError` is `Raised(error)`.

A call that raises leaves the tables as they were, because every operation
either commits once at its end, returns without writing (an empty patch, an
`update_assembly` without a name, a missing row), or rolls back before
raising.

## Model

| member | source | states |
|---|---|---|
| Ordering.StrLessStrictTotal | esp_db.py:290 | text order (SQLite BINARY collation) is irreflexive, transitive and total, so `ORDER BY` on a text key is well defined |
| Ordering.SortSet | esp_db.py:290 | the result lists each row of the set exactly once, in strictly ascending order |
| Ordering.AscendingUnique | esp_db.py:290 | any ascending listing of a set equals `SortSet`'s, so the `ORDER BY` result is unique |
| Schema.ApplyPartPatch | esp_db.py:522-549 | each column given a non-None value takes it; every other column (and `uom` always) keeps its value; an empty patch changes nothing |
| Schema.ApplyUnitPatch | esp_db.py:983-1018 | same for the eight unit columns of `update_esp` |
| Schema.FirstAbsent | esp_db.py:640-646 | None iff every listed key exists; otherwise the index of the first missing key, all before it existing |
| Schema.FirstAbsentAt | esp_db.py:640-646 | a missing key preceded only by existing keys is the one the check-then-insert loop stops at |
| Bom.DistinctByPart | esp_db.py:364-371 | the result has no repeated part number, names the same part numbers as the input, and takes its lines from the input |
| Bom.FirstOccurrenceWins | esp_db.py:364-371 | the line kept for each part is its first occurrence, and kept lines appear in the order their parts first occur |
| Bom.DistinctOfDistinct | esp_db.py:364-371 | a list without repeated parts is left as it is |
| Bom.FlattenIdempotent | esp_db.py:364-371 | flattening twice gives what flattening once gives |
| Bom.Categories | esp_db.py:440-445 | exactly the categories of the lines, each once |
| Bom.FirstOfCategory | esp_db.py:440-445 | the index of the first line of a category: no earlier line has it |
| Bom.FirstOfCategorySnoc | esp_db.py:441-445 | adding a line moves no category's first line; a category new to the list has its first line at the end |
| Bom.CategoriesInFirstOrder | esp_db.py:440-445 | `Categories` lists the categories in the order of their first lines, which is the `by_category` dict's insertion order |
| Bom.CountIn | esp_db.py:440-445 | a category's count is at most the number of lines, and positive iff the category occurs |
| Bom.CategoryCountsTotal | esp_db.py:457 | the `parts_by_category` counts add up to the number of lines |
| Bom.CategoryCounts | esp_db.py:457 | one entry per category that occurs, no category twice, each with its positive count of lines |
| Bom.TotalWeight | esp_db.py:448 | the sum of the lines' part weights, one weight per line; non-negative when every weight is |
| Bom.TotalWeightIgnoresLinks | esp_db.py:448 | the total weight does not depend on the lines' quantity or BOM level, only on their parts |
| Bom.CriticalCount | esp_db.py:449 | at most the number of lines; equal to it iff every line is critical; zero iff none is |
| Bom.Summarize | esp_db.py:451-459 | total_parts is the BOM length; the weight is `TotalWeight`, the critical count is `CriticalCount` and the per-category entries are `CategoryCounts` of the BOM, so critical ≤ total; category counts sum to total and each occurring category has an entry with its count; id, model name and assembly count passed through |
| Queries.PartRowOrder | esp_db.py:308 | `ORDER BY category, part_number` is a strict total order on rows with distinct part numbers |
| Queries.PowerOrder | esp_db.py:411 | ordering by power rating, ties broken by id, is a strict total order |
| Queries.GetPart | esp_db.py:272-279 | None iff the part is absent, otherwise its row |
| Queries.GetAllParts | esp_db.py:287-291 | exactly the rows of the table, one per part, in part-number order |
| Queries.GetPartsByCategory | esp_db.py:281-285 | exactly the parts of that category, in part-number order |
| Queries.GetCriticalParts | esp_db.py:425-429 | exactly the critical parts, by category then part number |
| Queries.SearchParts | esp_db.py:414-423 | exactly the parts whose name, category or material contains the query (ASCII case ignored), by category then part number |
| Queries.EmptyQueryMatchesAll | esp_db.py:417-422 | the empty query (`LIKE '%%'`) returns every part |
| Queries.SearchIgnoresCase | esp_db.py:417-422 | queries differing only in ASCII letter case return the same list |
| Queries.AssemblyParts | esp_db.py:303-309 | the parts of an assembly are its link rows joined with their part rows, in (category, part number) order |
| Queries.AssemblyPartsJoin | esp_db.py:303-309 | a line is listed iff its part exists, a link row joins it to the assembly, and it carries that row's quantity and BOM level |
| Queries.AssemblyPartsOrdered | esp_db.py:308 | listed lines ascend by (category, part number), so no part is listed twice |
| Queries.AssemblyPartsNumbers | esp_db.py:303-309 | the listed part numbers are exactly the linked parts that still exist (links to deleted parts are hidden) |
| Queries.GetAssembly | esp_db.py:293-312 | None iff the assembly is absent, otherwise its row with its joined parts |
| Queries.SortedAssemblyRows | esp_db.py:317 | every assembly row once, in code order |
| Queries.GetAllAssemblies | esp_db.py:314-328 | one entry per assembly in code order, each what `get_assembly` returns for it |
| Queries.AllAssembliesListed | esp_db.py:314-328 | every assembly is listed, in ascending code order |
| Queries.GetAssembliesUsingPart | esp_db.py:862-878 | exactly the existing assemblies with a link row to the part, by code; the part itself need not exist |
| Queries.GetAllEsps | esp_db.py:402-406 | exactly the unit rows, by id |
| Queries.GetEspsBySeries | esp_db.py:408-412 | exactly the units of the series, with non-decreasing power rating |
| Queries.GetEspsUsingAssembly | esp_db.py:880-896 | exactly the existing units linked to the assembly, by id |
| Queries.LinkedAssemblies | esp_db.py:341-346 | exactly the existing assemblies linked to the unit, by code (links to deleted assemblies are hidden) |
| Queries.LinkedViews | esp_db.py:347-360 | one view per linked assembly, in the same code order, each with its joined parts |
| Queries.GetEsp | esp_db.py:330-373 | None iff the unit is absent; otherwise its spec, its assemblies as `LinkedViews`, and as BOM the first-occurrence flattening of their parts (so no repeated part) |
| Queries.LinkedViewOrigin | esp_db.py:341-360 | each listed assembly is an existing assembly linked to the unit, with its joined parts |
| Queries.LinkedViewPresent | esp_db.py:341-360 | every existing assembly linked to the unit is listed |
| Queries.EspBomSound | esp_db.py:364-371 | each BOM line is an existing part joined with its link row in some existing assembly of the unit |
| Queries.EspBomComplete | esp_db.py:364-371 | a part number is in the BOM iff some existing assembly of the unit links to that existing part |
| Queries.GetEspBomParts | esp_db.py:375-380 | None iff the unit is absent; otherwise exactly the `bom_parts` that `get_esp` returns, so no part is repeated |
| Queries.GetEspAssemblies | esp_db.py:382-400 | None iff the unit is absent; otherwise the unit's id and spec and exactly its existing linked assemblies, in strictly ascending code order (so none twice) |
| Queries.GetBomSummary | esp_db.py:431-459 | None iff the unit is absent; otherwise the unit's id and model name; total = BOM length, weight = `TotalWeight` and critical count = `CriticalCount` of the BOM, critical ≤ total; one entry per category of the BOM, none twice, each with its positive `CountIn`, the counts summing to total; assembly count = linked assemblies |
| Transitions.CreatePart | esp_db.py:463-499 | an existing number raises and changes nothing; otherwise exactly that row (uom 'ea') is added and `get_part` returns it |
| Transitions.UpdatePart | esp_db.py:501-557 | None and no change for an absent part; otherwise only that part changes, by the patch; an empty patch returns the record untouched |
| Transitions.DeletePart | esp_db.py:559-579 | returns whether the part existed; removes only the part row, leaving its link rows |
| Transitions.ForceDeletePart | esp_db.py:581-608 | false and no change for an absent part; otherwise removes the part and exactly the link rows naming it |
| Transitions.LinkAll | esp_db.py:640-650 | adds a default link (quantity 1, level 1) for each listed part and keeps every other link |
| Transitions.Inserted | esp_db.py:640-650 | how many listed keys the check-then-insert loop inserts: all when none is missing, else exactly the index of the first missing key; every key before it exists |
| Transitions.RepeatAfterMissingPart | esp_db.py:640-650 | a part listed twice after a missing part is never inserted: `create_assembly` raises for the missing part and changes nothing |
| Transitions.LeftoverLinkAfterMissingAssembly | esp_db.py:939-948 | a leftover unit link after a missing assembly is never re-inserted: `create_esp` raises for the missing assembly and changes nothing |
| Transitions.CreateAssembly | esp_db.py:612-658 | duplicate code raises; the first missing listed part raises with no change (rollback); otherwise the assembly plus one default link per listed part, nothing else changes, and the result is what `get_assembly` returns |
| Transitions.UpdateAssembly | esp_db.py:660-684 | None for an absent assembly; otherwise only its name changes, and only when a name is given |
| Transitions.DeleteAssembly | esp_db.py:686-706 | returns whether the assembly existed; removes only its row |
| Transitions.ForceDeleteAssembly | esp_db.py:708-738 | false and no change for an absent assembly; otherwise removes its unit links, its part links and its row, nothing else |
| Transitions.AddPartToAssembly | esp_db.py:742-787 | None when assembly or part is absent; raises on an existing link; otherwise adds exactly one default link |
| Transitions.RemovePartFromAssembly | esp_db.py:789-818 | None only for an absent assembly; otherwise the link is absent afterwards and nothing else changes |
| Transitions.UpdateAssemblyPartQuantity | esp_db.py:820-860 | quantity < 1 raises first; None when the assembly or the link is absent; otherwise only that link's quantity changes |
| Transitions.LinkSet | esp_db.py:939-948 | exactly the pairs of the unit with each listed assembly |
| Transitions.CreateEsp | esp_db.py:900-956 | duplicate id raises; the first missing listed assembly raises with no change; otherwise the unit plus its links, nothing else, and the result is what `get_esp` returns |
| Transitions.UpdateEsp | esp_db.py:958-1025 | None for an absent unit; otherwise only that unit changes, by the patch; an empty patch changes nothing |
| Transitions.DeleteEsp | esp_db.py:1027-1045 | returns whether the unit existed; removes only its row, leaving its links |
| Transitions.AddAssemblyToEsp | esp_db.py:1047-1092 | None when unit or assembly is absent; raises on an existing link; otherwise adds exactly that link |
| Transitions.RemoveAssemblyFromEsp | esp_db.py:1094-1123 | None only for an absent unit; otherwise exactly that link is gone afterwards |
| Transitions.CreatePartInvariants | esp_db.py:463-499 | keeps the tables consistent and link quantities positive |
| Transitions.UpdatePartInvariants | esp_db.py:501-557 | keeps the tables consistent and link quantities positive |
| Transitions.DeletePartInvariants | esp_db.py:559-579 | keeps link quantities positive |
| Transitions.ForceDeletePartInvariants | esp_db.py:581-608 | keeps the tables consistent and link quantities positive |
| Transitions.CreateAssemblyInvariants | esp_db.py:612-658 | keeps the tables consistent and link quantities positive |
| Transitions.UpdateAssemblyInvariants | esp_db.py:660-684 | keeps the tables consistent and link quantities positive |
| Transitions.DeleteAssemblyInvariants | esp_db.py:686-706 | keeps link quantities positive |
| Transitions.ForceDeleteAssemblyInvariants | esp_db.py:708-738 | keeps the tables consistent and link quantities positive |
| Transitions.AddPartToAssemblyInvariants | esp_db.py:742-787 | keeps the tables consistent and link quantities positive |
| Transitions.RemovePartFromAssemblyInvariants | esp_db.py:789-818 | keeps the tables consistent and link quantities positive |
| Transitions.UpdateAssemblyPartQuantityInvariants | esp_db.py:834-857 | keeps the tables consistent, and quantities positive because quantity < 1 is refused |
| Transitions.CreateEspInvariants | esp_db.py:900-956 | keeps the tables consistent and link quantities positive |
| Transitions.UpdateEspInvariants | esp_db.py:958-1025 | keeps the tables consistent and link quantities positive |
| Transitions.DeleteEspInvariants | esp_db.py:1027-1045 | keeps link quantities positive |
| Transitions.AddAssemblyToEspInvariants | esp_db.py:1047-1092 | keeps the tables consistent and link quantities positive |
| Transitions.RemoveAssemblyFromEspInvariants | esp_db.py:1094-1123 | keeps the tables consistent and link quantities positive |
| Transitions.AddThenRemovePart | esp_db.py:742-818 | removing a part just added to an assembly restores the store |
| Transitions.RemovePartTwice | esp_db.py:789-818 | `remove_part_from_assembly` is idempotent |
| Transitions.AddThenRemoveAssembly | esp_db.py:1047-1123 | unlinking an assembly just linked to a unit restores the store |
| Transitions.RemoveAssemblyTwice | esp_db.py:1094-1123 | `remove_assembly_from_esp` is idempotent |
| Transitions.UpdatePartTwice | esp_db.py:501-557 | repeating an `update_part` call changes nothing more |
| Transitions.UpdateEspTwice | esp_db.py:958-1025 | repeating an `update_esp` call changes nothing more |
| Transitions.CreateThenForceDeletePart | esp_db.py:463-608 | in a consistent store, force-deleting a just-created part restores the store |
| Transitions.ForceDeletePartLeavesNoUse | esp_db.py:581-608 | in a consistent store, afterwards the part is gone and no assembly uses it |
| Transitions.ForceDeleteAssemblyLeavesNoUse | esp_db.py:708-738 | in a consistent store, afterwards the assembly is gone and no unit uses it |
| Transitions.DeletedPartHidden | esp_db.py:559-579 | after `delete_part` the part's link rows remain but no assembly lists the part |
| Transitions.LinkedAssembliesDepend | esp_db.py:341-346 | the assemblies listed for a unit depend only on the assembly and unit-link tables |
| Transitions.DeletedUnitLinksRevive | esp_db.py:1027-1045 | a unit deleted and created again under the same id, with no assemblies given, lists the old unit's assemblies |
| Database.EspDatabase.constructor | esp_db.py:147-152 | the object holds the given tables |
| Database.EspDatabase.Rollback | esp_db.py:645 | the tables return to the saved state |
| Database.EspDatabase.GetAllAssemblies | esp_db.py:314-328 | the loop's result equals `Queries.GetAllAssemblies` |
| Database.EspDatabase.GetEsp | esp_db.py:330-373 | the loops' result equals `Queries.GetEsp` |
| Database.EspDatabase.GetEspBomParts | esp_db.py:375-380 | equals `Queries.GetEspBomParts` |
| Database.EspDatabase.GetBomSummary | esp_db.py:431-459 | equals `Queries.GetBomSummary` |
| Database.EspDatabase.CreatePart | esp_db.py:463-499 | new tables and result are the `Transitions.CreatePart` step |
| Database.EspDatabase.UpdatePart | esp_db.py:501-557 | new tables and result are the `Transitions.UpdatePart` step |
| Database.EspDatabase.DeletePart | esp_db.py:559-579 | new tables and result are the `Transitions.DeletePart` step |
| Database.EspDatabase.ForceDeletePart | esp_db.py:581-608 | new tables and result are the `Transitions.ForceDeletePart` step |
| Database.EspDatabase.CreateAssembly | esp_db.py:612-658 | the insert loop with rollback yields the `Transitions.CreateAssembly` step |
| Database.EspDatabase.UpdateAssembly | esp_db.py:660-684 | new tables and result are the `Transitions.UpdateAssembly` step |
| Database.EspDatabase.DeleteAssembly | esp_db.py:686-706 | new tables and result are the `Transitions.DeleteAssembly` step |
| Database.EspDatabase.ForceDeleteAssembly | esp_db.py:708-738 | new tables and result are the `Transitions.ForceDeleteAssembly` step |
| Database.EspDatabase.AddPartToAssembly | esp_db.py:742-787 | new tables and result are the `Transitions.AddPartToAssembly` step |
| Database.EspDatabase.RemovePartFromAssembly | esp_db.py:789-818 | new tables and result are the `Transitions.RemovePartFromAssembly` step |
| Database.EspDatabase.UpdateAssemblyPartQuantity | esp_db.py:820-860 | new tables and result are the `Transitions.UpdateAssemblyPartQuantity` step |
| Database.EspDatabase.CreateEsp | esp_db.py:900-956 | the insert loop with rollback yields the `Transitions.CreateEsp` step |
| Database.EspDatabase.UpdateEsp | esp_db.py:958-1025 | new tables and result are the `Transitions.UpdateEsp` step |
| Database.EspDatabase.DeleteEsp | esp_db.py:1027-1045 | new tables and result are the `Transitions.DeleteEsp` step |
| Database.EspDatabase.AddAssemblyToEsp | esp_db.py:1047-1092 | new tables and result are the `Transitions.AddAssemblyToEsp` step |
| Database.EspDatabase.RemoveAssemblyFromEsp | esp_db.py:1094-1123 | new tables and result are the `Transitions.RemoveAssemblyFromEsp` step |
| Database.EspDatabase.LinkListedParts | esp_db.py:640-650 | the loop stops at the index `FirstAbsent` names; when nothing is missing it has added exactly `LinkAll`'s default links |
| Database.EspDatabase.LinkListedAssemblies | esp_db.py:939-948 | the loop stops at the index `FirstAbsent` names; when nothing is missing it has added exactly `LinkSet`'s pairs |
| Database.CollectViews | esp_db.py:318-327 | the per-assembly loop yields one joined view per row, in order |
| Database.FlattenBom | esp_db.py:364-371 | the `seen_parts` loop yields `Bom.DistinctByPart` of the concatenated assembly parts |
| Database.KeepUnseen | esp_db.py:367-371 | the inner loop extends the kept lines as the flattening of the longer list |
| Database.CountByCategory | esp_db.py:440-445 | the `by_category` loop yields each category's count, categories in first-seen order |
| Database.WeightAndCritical | esp_db.py:448-449 | the two sums equal `Bom.TotalWeight` and `Bom.CriticalCount` |
| Database.SummarizeBom | esp_db.py:437-459 | the summary built equals `Bom.Summarize` |
| Findings.DeletePartLeavesDanglingLink | esp_db.py:559-579 | on a consistent one-part store, `delete_part` of a used part succeeds and leaves an inconsistent store |
| Findings.DeleteAssemblyLeavesDanglingLink | esp_db.py:686-706 | on a consistent store, `delete_assembly` of an assembly that a unit uses and that has parts succeeds, leaves both links behind and leaves an inconsistent store |
| Findings.DeletePartChecked | esp_db.py:559-579 | returns True iff the part exists and no link names it, and then acts as `delete_part`; otherwise returns False and changes nothing; keeps the store consistent |
| Findings.DeleteAssemblyChecked | esp_db.py:686-706 | returns True iff the assembly exists and no unit or part link names it, and then acts as `delete_assembly`; otherwise returns False and changes nothing; keeps the store consistent |
| Findings.CheckedDeleteMatchesForce | esp_db.py:559-608 | on an unused part, the checked delete and `force_delete_part` leave the same tables |

## Left out

- The SQLite connection, cursors, commit and close calls, and the context-manager methods are not modelled. One call is one atomic step on the tables. `Rollback` restores the saved tables.
- Sample data and `populate_sample_data` are left out. The reseeding check after most mutations (whenever `parts` is empty after the mutation, including a `create_assembly` on an already empty store) is also left out. The store starts from any tables passed to the constructor, and no mutation reseeds here.
- Weights, power ratings, frequencies, flow rates and cable lengths are exact `real`s, not IEEE floats.
- Integers (link quantities, voltage, stages) are unbounded `int`s. SQLite stores 64-bit integers, and Python's `sqlite3` raises `OverflowError` when binding a larger one, so for example `update_assembly_part_quantity` with a quantity of 2**63 raises and changes nothing, while `Transitions.UpdateAssemblyPartQuantity` returns Ok. The same binding overflow in `create_esp` and `update_esp` is not modelled either.
- Bom.Summarize: `total_weight_kg` is the exact sum. The rounding to two decimals is not modelled.
- Queries.GetEspsBySeries: the source orders only by power rating and leaves ties to SQLite. The model breaks ties by id. The contract promises only non-decreasing power.
- Queries.GetAllAssemblies: the source's per-assembly parts query has no `ORDER BY`. The model lists those parts in the (category, part number) order of `get_assembly`.
- Queries.SearchParts: `%` and `_` in the query act as wildcards in SQLite. The model treats them as plain characters. Case folding covers ASCII letters only, as SQLite's `LIKE` does.
- Transitions.CreateAssembly: for a new code, requires that among the part numbers before the first missing one (all of them when none is missing) none is listed twice and none has a leftover link row for the code. Otherwise an insert hits an uncaught primary-key IntegrityError and leaves its transaction open. Repeats and leftover links at or after the first missing part are allowed: the loop stops there and rolls back cleanly. The same holds for Database.EspDatabase.CreateAssembly.
- Transitions.CreateEsp: requires the same of the assembly codes before the first missing one and of leftover unit links. The same holds for Database.EspDatabase.CreateEsp.
- Readers without loops (`get_part`, `get_all_parts`, `get_parts_by_category`, `get_critical_parts`, `search_parts`, `get_assembly`, `get_esp_assemblies`, `get_all_esps`, `get_esps_by_series`, `get_assemblies_using_part`, `get_esps_using_assembly`) are functions in `Queries`, not class methods. Each is one or two SELECTs with no Python loop.
- The class keeps `delete_part` and `delete_assembly` as written. The corrected deletes are functions in `Findings`.
- The dataclasses and enum that are never used are not modelled. The HTTP, CLI and JSON-RPC adapters are not part of this model.

## Findings

| source | as written | input that shows it | evidently intended | confidence | as-written member | corrected member |
|---|---|---|---|---|---|---|
| esp_db.py:559-579 | `delete_part` deletes the part row even when an assembly still lists it. Foreign keys are never switched on, so the link row is left dangling. | part `P-1` linked to assembly `A-1`; `delete_part("P-1")` returns True and leaves link (`A-1`, `P-1`) | the docstring says the delete fails while the part is used in an assembly; the callers in `api.py` and `cli.py` read a False return as "not found or is in use", so the refusal returns False | not executed | Findings.DeletePartLeavesDanglingLink | Findings.DeletePartChecked |
| esp_db.py:686-706 | `delete_assembly` deletes the assembly row even when link rows still name it, leaving them dangling | assembly `A-1` with part `P-1`, used by unit `U-1`; `delete_assembly("A-1")` returns True and leaves links (`U-1`, `A-1`) and (`A-1`, `P-1`) | the docstring says the delete fails while the assembly is referenced; the callers in `api.py` and `cli.py` read a False return as "not found or is in use", so the refusal returns False | not executed | Findings.DeleteAssemblyLeavesDanglingLink | Findings.DeleteAssemblyChecked |
