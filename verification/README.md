# Project renewal consolidation — a Dafny model

`project_renewal` joins three CSV exports (licenses, contracts, finance) into
one report for the renewal team. The license table is narrowed to Inspect
licenses on allowed tiers. Each of these records is joined on its contract ID
with the seven contract attributes of the first contract row carrying that ID.
It is also joined with the customer name from the finance table, or with the
sentinel `#NA` when no name is known. Two counters record how many records
found no contract and how many got the sentinel.

This project models that core, `src/project_renewal/consolidate.py`:

- `LicenseFilter` (`license_filter.dfy`) models `filter_license_rows`, a pure function. Its mask is
  computed on trimmed, lower-cased Product and Tier cells.
- `ContractLookup` (`contract_lookup.dfy`) models `build_contract_lookup`. It is a method with the source's
  loop, proved equal to the prefix fold `LookupOf`.
- `FinanceLookup` (`finance_lookup.dfy`) models `build_finance_lookup`. It is a method with the source's
  loop and its `continue`/`setdefault` branches, proved equal to `NamesOf`. `NamesOf` reads each row's
  trimmed contract ID and customer name into an `Entry`, then folds `AddName` over those entries
  (`NamesFrom`). The properties of the fold are stated over the entry sequence, so they hold for
  `ReadEntries(rows)` in particular.
- `Enrichment` (`enrichment.dfy`) models the enrichment loop of `consolidate`, lifted into the method
  `Enrich`. Its `fields` parameter is the source's `contract_fields` list. `EnrichItem` is one pass of
  the loop body and `SetDefaults` is the inner `setdefault` loop. `EnrichAll` is the record sequence
  the loop produces.
- `Consolidate` (`consolidate.dfy`) models `consolidate` from the filter to the end of the enrichment, with
  the order in which the three tables are checked.
- Two support modules serve the rest:
  - `Text` models Python's `str.strip()` and `str.lower()` on ASCII.
  - `Tables` holds rows as maps from column name to cell, frames, the
    missing-columns error and `Result`.

A `ValueError` raised for missing columns becomes `Err(MissingColumns(source, missing))`. A cell read
with `row.get(col, "")` or `row[col]` is `Cell(row, col)`, which is "" when the row has no such key.
Frames are not required to be rectangular: a row may lack a key its frame lists as a column. Every
contract holds for such frames too. For the pandas frames of the source, every row has every column,
so after the required-column check both forms of read give the same cell.

## Model

| member | source | states |
|---|---|---|
| Tables.Missing | src/project_renewal/consolidate.py:68-70 | the missing set is a subset of the required set; it is empty iff every required column is present; a required column is in it iff the frame lacks it |
| Text.StripSpec | src/project_renewal/consolidate.py:136-137 | `strip()` keeps a contiguous middle of the string; everything removed on either side is whitespace; the result starts and ends with non-whitespace; it is empty iff the input is all whitespace |
| Text.StripIdempotent | src/project_renewal/consolidate.py:85 | stripping a stripped string changes nothing, so stored IDs and values are already trimmed |
| LicenseFilter.Eligible | src/project_renewal/consolidate.py:136-139 | the mask entry of one row: its trimmed, lower-cased Product is "inspect" and its trimmed, lower-cased Tier is an allowed tier; a row that is eligible has both a Product and a Tier cell |
| LicenseFilter.FilterLicenseRows | src/project_renewal/consolidate.py:125-140 | fails, naming exactly the missing columns, iff Contract ID, Product or Tier is absent; otherwise it keeps the columns and returns the eligible rows |
| LicenseFilter.SelectEligibleIsMask | src/project_renewal/consolidate.py:136-140 | a row is kept iff its trimmed, lower-cased Product is "inspect" and its trimmed, lower-cased Tier is one of the four allowed tiers (line 10); the output is those input rows at strictly increasing positions, so order is kept |
| LicenseFilter.SelectWhereByIndices | src/project_renewal/consolidate.py:140 | `loc[mask]` returns exactly the rows at the true positions of the mask, in increasing position order |
| LicenseFilter.SelectEligibleIdempotent | src/project_renewal/consolidate.py:136-140 | filtering the filtered table again changes nothing |
| ContractLookup.AddContract | src/project_renewal/consolidate.py:84-88 | one loop pass adds at most the row's own non-empty trimmed ID to the keys; it never changes an entry already present; a new ID maps to the row's projected record |
| ContractLookup.ProjectSpec | src/project_renewal/consolidate.py:88 | the per-contract record has exactly the listed attribute names, each mapped to its trimmed cell or "" when absent |
| ContractLookup.BuildContractLookup | src/project_renewal/consolidate.py:52-89 | fails, naming the missing columns, iff ID or one of the seven attributes is absent; otherwise its loop computes `LookupOf(rows, CONTRACT_FIELDS)` |
| ContractLookup.LookupDomain | src/project_renewal/consolidate.py:84-88 | an ID is a key iff it is non-empty and is the trimmed ID of some row |
| ContractLookup.LookupEntriesWellFormed | src/project_renewal/consolidate.py:85-88 | every key is non-empty and trimmed; every entry has exactly the attribute names as keys, each mapped to a trimmed value |
| ContractLookup.LaterRowsChangeNothing | src/project_renewal/consolidate.py:86-87 | an entry created by a prefix of the table is still in the final lookup, unchanged |
| ContractLookup.FirstOccurrenceWins | src/project_renewal/consolidate.py:84-88 | for duplicate IDs the entry is the whole record of the first row with that trimmed ID |
| FinanceLookup.BuildFinanceLookup | src/project_renewal/consolidate.py:92-122 | fails, naming the missing columns, iff Contract ID or Customer name is absent; otherwise its loop computes `NamesOf(rows)` |
| FinanceLookup.AddName | src/project_renewal/consolidate.py:109-120 | one loop pass adds at most the entry's non-empty ID to the keys; other IDs and a real name already stored are unchanged; an ID without a real name takes the entry's non-empty name; a new ID with an empty name maps to `#NA`; an entry with an empty name changes no stored value, so a stored `#NA` stays `#NA` |
| FinanceLookup.NamesDomain | src/project_renewal/consolidate.py:106-120 | an ID is a key iff it is non-empty and is the trimmed ID of some row, including IDs whose rows have no name |
| FinanceLookup.NamesFromWellFormed | src/project_renewal/consolidate.py:109-120 | folding trimmed entries gives non-empty trimmed keys, and every value is `#NA` or a non-empty trimmed name |
| FinanceLookup.NamesWellFormed | src/project_renewal/consolidate.py:107-120 | every key is non-empty and trimmed; every value is `#NA` or a non-empty trimmed name |
| FinanceLookup.RealNameSticky | src/project_renewal/consolidate.py:112-114 | once an ID maps to something other than `#NA`, later entries never change it |
| FinanceLookup.RealNameStickyRows | src/project_renewal/consolidate.py:106-114 | the same over the table: once the rows read so far give an ID a real name, the remaining rows never change it |
| FinanceLookup.OnlyPlaceholdersGiveSentinel | src/project_renewal/consolidate.py:116-120 | while every entry of an ID has an empty or `#NA` name, the ID is absent or maps to `#NA` |
| FinanceLookup.FirstRealNameWins | src/project_renewal/consolidate.py:112-117 | if an entry is the first of its ID with a real name, the ID maps to that name in the final lookup |
| FinanceLookup.RealNameEntryGivesRealName | src/project_renewal/consolidate.py:113-117 | an ID with any entry carrying a real name does not end up as `#NA` |
| FinanceLookup.SentinelIffNoRealName | src/project_renewal/consolidate.py:116-120 | a present ID maps to `#NA` iff every one of its entries has an empty or `#NA` name |
| FinanceLookup.SentinelIffNoRealNameRows | src/project_renewal/consolidate.py:106-120 | the same over the table: a present ID maps to `#NA` iff every row with that trimmed ID has an empty or `#NA` trimmed customer name |
| Enrichment.WithDefaultsSpec | src/project_renewal/consolidate.py:186-187 | `setdefault` adds each absent attribute as "" and leaves every existing key and value unchanged |
| Enrichment.SetDefaults | src/project_renewal/consolidate.py:186-187 | the inner loop computes `WithDefaults(item, fields)`: keys are the item's plus the attributes; old values kept; new ones "" |
| Enrichment.EnrichedRecord | src/project_renewal/consolidate.py:179-195 | on a contract hit the entry's attributes overwrite the record's; on a miss the attributes are the record's own or ""; Customer name is the finance name or `#NA`; no other key changes or is added |
| Enrichment.EnrichItem | src/project_renewal/consolidate.py:179-195 | one loop pass yields `EnrichedRecord`; it signals a contract miss iff the trimmed ID has no entry, and a finance miss iff the record's Customer name is `#NA` |
| Enrichment.ContractMisses | src/project_renewal/consolidate.py:183-184 | the `missing_contract` count is at most the number of items; it is 0 iff every item's trimmed Contract ID is a contract key |
| Enrichment.FinanceMisses | src/project_renewal/consolidate.py:192-194 | the `missing_finance` count is at most the number of items; it is 0 iff no item falls back to `#NA` |
| Enrichment.EnrichAllSpec | src/project_renewal/consolidate.py:178-195 | record `k` of the loop's output is item `k` enriched |
| Enrichment.NameMissesAreFinanceMisses | src/project_renewal/consolidate.py:189-194 | the number of items that fall back to `#NA` equals the number of output records whose Customer name is `#NA` |
| Enrichment.Enrich | src/project_renewal/consolidate.py:175-195 | the loop yields `EnrichAll`: one enriched record per item, in order; `missing_contract` is the number of items without a contract entry; `missing_finance` is both the number of items that fall back to `#NA` and the number of output records named `#NA` |
| Consolidate.ConsolidateTables | src/project_renewal/consolidate.py:155-195 | the license table's missing columns are reported first, then the contract table's, then the finance table's; on success the report holds the enriched eligible rows, `len(lic_filtered)` and the two miss counts |
| Consolidate.ContractRecordShape | src/project_renewal/consolidate.py:178-195 | the record shape above holds for the seven contract attributes the source passes, because they share no name with Product, Tier, Contract ID or Customer name |
| Consolidate.ReportRecordShape | src/project_renewal/consolidate.py:178-195 | every output record is still eligible and keeps its Contract ID; it carries every contract attribute; its Customer name is `#NA` or a non-empty trimmed name; on a contract hit its attributes are trimmed |

## Left out

- Reading the CSV files is not modelled. That covers `read_license_csv` and `read_standard_csv`, the skipped first line, the UTF-8 BOM and the header trimming. Frames are inputs whose column names are already trimmed.
- Writing the output is not modelled: the `DataFrame` built from the records, the folder creation, `to_csv` and the console summary. `ConsolidateTables` returns what the summary prints.
- `project_root_from_this_file` and the command-line entry point are not modelled, because they only involve file paths and argument parsing.
- Column order of the output and the key order of each record (dict insertion order) are not modelled. Records are maps.
- `Enrich`: in the source, the loop variable `item` (line 178) is the dict stored in `items`. So `update`, `setdefault` and the Customer name assignment change `items` in place, and line 198 reads the changed list. The model returns the enriched records as a new sequence instead. That sequence is what line 198 would see, but the in-place update of the list is not captured.
- `Text.Strip` and `Text.Lower` cover ASCII only. Python's Unicode whitespace and case mapping are not modelled.
- The business-unit rule, sorting by expiration date, the Excel output and urgency bands are not part of `consolidate.py`. They are not part of this model. `LicenseFilter.EligibleReadsProductAndTier` records that the filter reads only Product and Tier.
- The error message text (`sorted(missing)` in a string) is not modelled. The error carries the source table and the set of missing columns.
- `ConsolidateTables` fixes the source's order of checks: it checks the license table before the two lookups are built. Reads that fail before any check are not modelled.

Where the comments and the code disagree, the model follows the code:

- The docstring of `build_finance_lookup` (line 98) says an ID with no name is left out of the lookup. The code (line 120) stores `#NA` for it, so `NamesDomain` includes such IDs.
- The docstring of `filter_license_rows` (line 129) lists three tiers. `TIERS_ALLOWED` (line 10) has four, including "enterprise ai".
- A finance row whose customer name is literally `#NA` is treated like the sentinel. It is stored as `#NA`, a later real name replaces it, and it counts as a finance miss. `FinanceLookup.IsPlaceholder` names this, and `SentinelIffNoRealName` is stated with it.
