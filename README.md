# Fleet data processor — a Dafny model of its record pipeline

The program reads a trip export of a paratransit fleet system. Each row of the export is one trip.
The program labels every trip with the contract its vehicle belongs to and keeps the completed trips.
For every (fleet, contract, driver) group, it sums the cash the driver collected.
It also counts every non-cash payment method the driver entered.
It then joins the two summaries into one table and writes that table to a file.
Finally it writes one file per fleet, whose name is derived from the fleet name.

This project models that pipeline, as `process_fleet_data.py` performs it, and proves what each step
guarantees. The modules follow the order of the steps.

- `Cells`: the cell values of the trip table.
  - A text cell is either missing (NaN) or holds a string.
  - The cash cell is blank, the placeholder `-`, or an amount.
- `Ordering`: Python's code-point order on strings and a generic "sorted distinct values" function. pandas sorts
  group keys this way.
- `Sequences`: row selection by a mask.
- `Splitting`: `str.split(',')` without trimming, and its inverse.
- `Contracts`: the contract → vehicles table, its inversion into vehicle → contract, and `get_contract`.
- `Trips`: the contract column, the drop of the rider columns, the completed-trip filter, the cash conversion and
  the cash summary grouped by (fleet, contract, driver).
- `Payments`: the payment pipeline.
  - The payment column is split into tokens and exploded into one row per token.
  - The exact token `cash` is dropped.
  - The remaining rows are counted per (key, token) and pivoted into one column per token.
- `Results`: the left join of the cash summary with the payment counts.
- `FleetFiles`: the grouping of the combined table by fleet, the derived file names, and the loop that writes one
  file per fleet into the output directory. The directory is modelled as a map from file name to table.
- `FleetData`: `process_file`, the whole pipeline as a method that rewrites its frame step by step.

Two behaviours of the code are easy to misread, and the model states them as the code has them:

- The method cells of a driver with no non-cash token are missing after the join, not 0. `unstack(fill_value=0)`
  fills only inside the pivot, and nothing fills after the join.
- The per-token numbers count token occurrences, not trips. A trip that lists `app,app` adds 2 to the `app` column.

## Model

| member | source | states |
|---|---|---|
| Contracts.InvertDomain | process_fleet_data.py:103 | a vehicle is a key of the inverted table exactly when some entry of the contract table lists it |
| Contracts.InvertLastWins | process_fleet_data.py:103 | a vehicle listed under several contracts maps to the contract of the last entry that lists it |
| Contracts.LastListingExists | process_fleet_data.py:103 | every listed vehicle has a last entry that lists it, so the last-wins rule decides every key |
| Contracts.InvertedContractListsVehicle | process_fleet_data.py:103 | every key of the inverted table maps to a contract whose own list holds that vehicle |
| Contracts.Invert | process_fleet_data.py:103 | a definition with no contract of its own: the comprehension, entry by entry, later entries overwriting; its properties are stated by InvertDomain, InvertLastWins, LastListingExists and InvertedContractListsVehicle |
| Contracts.ContractOfListedVehicle | process_fleet_data.py:7-8 | a vehicle the table lists is labelled with the contract of the last entry that lists it |
| Contracts.ContractOfUnlistedVehicle | process_fleet_data.py:7-8 | a vehicle the table does not list, and a missing vehicle cell, are labelled "No Contract"; the match is exact, so a case variant is unlisted |
| Contracts.GetContract | process_fleet_data.py:7-8 | a definition with no contract of its own: the dictionary lookup with its default; its properties are stated by ContractOfListedVehicle and ContractOfUnlistedVehicle |
| Contracts.EmbeddedTableLookup | process_fleet_data.py:87-103 | in the table the program embeds, vehicle "701U BUS" is labelled with contract "107-2019" |
| Trips.CompletedRowsExact | process_fleet_data.py:14-20 | a row reaches the aggregates exactly when it comes from a trip whose status is exactly "completed"; every such row carries the contract `get_contract` gives its vehicle |
| Trips.Enrich | process_fleet_data.py:14-20 | a definition with no contract of its own: one trip with its contract added and its rider columns dropped; CompletedRowsExact states what reaches the aggregates |
| Trips.CompletedRows | process_fleet_data.py:14-20 | a definition with no contract of its own: the labelled trips under the status mask; its properties are stated by CompletedRowsExact |
| Trips.CashAmount | process_fleet_data.py:22-26 | a definition with no contract of its own: a `-` or blank cash cell is 0; FillCash and CashSummaryConservesCash state its effect |
| Trips.FillCash | process_fleet_data.py:22-26 | the cash conversion keeps every row and changes only its cash cell; a `-` or blank cell becomes 0 |
| Trips.RowKeys | process_fleet_data.py:29 | exactly the keys of rows whose fleet and driver are present take part in the grouping |
| Trips.KeyOf | process_fleet_data.py:29 | a definition with no contract of its own: a row with a missing fleet or driver has no group; RowKeys and CashSummary state its effect |
| Trips.SumCash | process_fleet_data.py:29 | a definition with no contract of its own: the cash of one group; CashSummary and CashSummaryConservesCash state its properties |
| Trips.Summarize | process_fleet_data.py:29 | for each given key, one summary row holding that key's cash sum |
| Trips.CashSummary | process_fleet_data.py:29-30 | the cash summary has one row per distinct (fleet, contract, driver) key of the rows, in ascending key order and without repeats; each row's cash is the sum over its group |
| Trips.FillCashKeepsSummary | process_fleet_data.py:22-30 | converting the cash column changes no group and no sum of the summary |
| Trips.FillCashKeepsKeysAndSums | process_fleet_data.py:22-30 | converting the cash column keeps the row keys and every per-key sum |
| Trips.SummarizeConservesCash | process_fleet_data.py:29 | over distinct keys covering every group, the summary's cash column counts every keyed row's cash exactly once |
| Trips.CashSummaryConservesCash | process_fleet_data.py:29-30 | the cash column of the summary adds up to the cash of all rows with a complete key: no cash is lost or double-counted |
| Trips.KeyLtIsStrictTotalOrder | process_fleet_data.py:29 | the tuple order on keys is a strict total order, so sorting by it is well defined |
| Ordering.StrLtIsStrictTotalOrder | process_fleet_data.py:29 | Python's string order is irreflexive, transitive and total on distinct strings |
| Ordering.SortedDistinct | process_fleet_data.py:29 | the sorted group keys are strictly ascending and are exactly the values that occur |
| Ordering.SortedIsDistinct | process_fleet_data.py:29 | a strictly sorted list of group keys repeats no key |
| Sequences.Filter | process_fleet_data.py:17 | a mask selection keeps exactly the rows the mask accepts, each with its multiplicity, and adds none |
| Sequences.FilterKeepsOrder | process_fleet_data.py:56 | a mask selection from a strictly sorted sequence is strictly sorted: selection keeps the order of what it keeps |
| Splitting.JoinSplit | process_fleet_data.py:34 | splitting on ',' loses no character: joining the pieces with ',' gives the cell back |
| Splitting.SplitJoin | process_fleet_data.py:34 | pieces without ',' joined by ',' split back into the same pieces |
| Splitting.SplitCount | process_fleet_data.py:34 | a cell splits into one piece more than it holds commas |
| Splitting.Split | process_fleet_data.py:34 | a cell always splits into at least one piece, and no piece holds ','; JoinSplit, SplitJoin and SplitCount state the rest |
| Payments.TokensOfExamples | process_fleet_data.py:33-34 | "cash, app" yields "cash" and " app" with its space; `-` and a missing cell yield no token |
| Payments.TokensOf | process_fleet_data.py:33-34 | a definition with no contract of its own: the tokens of one payment cell; TokensOfExamples, CountExplode and PaymentTable state its properties |
| Payments.Explode | process_fleet_data.py:37 | a definition with no contract of its own: one row per token, one row for a missing cell; its counts are stated by CountExplode |
| Payments.NotCash | process_fleet_data.py:40 | a definition with no contract of its own: the `!= 'cash'` mask; its effect is stated by CountDropCash |
| Payments.Count | process_fleet_data.py:43 | a definition with no contract of its own: the size of one (key, token) group; CountExplode, CountDropCash and TokenCountsAreOccurrences relate it to the payment cells |
| Payments.CountExplode | process_fleet_data.py:37-43 | after the explode, the number of rows with key k and token t is the number of occurrences of t in group k's token lists |
| Payments.CountDropCash | process_fleet_data.py:40 | dropping the rows whose token is exactly "cash" removes every "cash" row and keeps every other count |
| Payments.TokenCountsAreOccurrences | process_fleet_data.py:33-43 | the size of group (k, t) is 0 for "cash" and otherwise the number of occurrences of t in group k's payment cells |
| Payments.OccurrencesPositive | process_fleet_data.py:43 | a token occurs in a group exactly when some row of the group lists it |
| Payments.TokenList | process_fleet_data.py:43 | the token columns are drawn from the tokens of rows that have a key |
| Payments.Pivot | process_fleet_data.py:43 | the pivot has one ascending column per observed token, a row per key with a token, and in each cell the (key, token) group size, 0 when unobserved |
| Payments.TokenRowIff | process_fleet_data.py:37-40 | a (k, t) row survives the explode and the filter exactly when t is not "cash" and some row of group k lists t |
| Payments.PaymentTable | process_fleet_data.py:32-43 | no "cash" column ever appears; there is one ascending column per other listed token and a row per key listing a non-cash token; each cell counts occurrences |
| Payments.FillCashKeepsOccurrences | process_fleet_data.py:22-43 | converting the cash column changes no token count |
| Payments.FillCashKeepsHasToken | process_fleet_data.py:22-43 | converting the cash column changes no row's key or tokens |
| Payments.FillCashKeepsTokens | process_fleet_data.py:22-43 | the token counts and token presence are the same before and after the cash conversion |
| Payments.FillCashKeepsPaymentTable | process_fleet_data.py:22-43 | the payment table of the converted rows, stated in terms of the rows before the conversion |
| Results.Combine | process_fleet_data.py:46 | the left join keeps every summary row in order and adds none; a key with counts gets them, and a key without counts gets missing cells, not 0 |
| Results.JoinDropsNoPaymentRow | process_fleet_data.py:29-46 | every key of the payment counts is a key of the cash summary, so the left join loses no count |
| Results.PaidKeyIsKey | process_fleet_data.py:43 | a key with a non-cash token is a key of the grouped rows |
| Results.KeyHasSummaryRow | process_fleet_data.py:29 | every key of the grouped rows has a row in the cash summary |
| FleetFiles.FileNameCollision | process_fleet_data.py:58 | two fleet names give the same file name exactly when they agree position by position, up to swapping ' ' and '_' |
| FleetFiles.FileNamesCanCollide | process_fleet_data.py:58 | the file name is lossy: "North Fleet" and "North_Fleet" share one file |
| FleetFiles.FileName | process_fleet_data.py:58 | a definition with no contract of its own: spaces become underscores and "_Drivers.csv" is appended; FileNameCollision and FileNamesCanCollide state its properties |
| FleetFiles.FleetNames | process_fleet_data.py:56 | the fleet names of the combined table are exactly the fleets of its rows |
| FleetFiles.Fleets | process_fleet_data.py:56 | groupby('Fleet Name') yields each fleet of the table once, in ascending order |
| FleetFiles.FleetTableRows | process_fleet_data.py:56 | a fleet's group holds exactly the combined rows of that fleet |
| FleetFiles.FleetTable | process_fleet_data.py:56 | a definition with no contract of its own: the rows of one fleet with all the columns; FleetTableRows, FleetTableInKeyOrder and FleetGroupsPartition state its properties |
| FleetFiles.FleetTableInKeyOrder | process_fleet_data.py:56-60 | a fleet's group keeps the ascending key order of the combined table, so together with FleetTableRows each file's contents are fixed |
| FleetFiles.GroupsOfDistinctFleets | process_fleet_data.py:56 | over distinct fleets, the groups together hold each row of those fleets as often as the table does |
| FleetFiles.FleetGroupsPartition | process_fleet_data.py:56 | the fleet groups partition the combined table: every row is in exactly the group of its fleet |
| FleetFiles.Written | process_fleet_data.py:56-60 | a definition with no contract of its own: the directory after the groups are written in turn, each file overwriting one of the same name; WrittenNames, WrittenKeepsOthers, WrittenLastWins and WrittenSpec state its properties |
| FleetFiles.WrittenNames | process_fleet_data.py:56-60 | afterwards the directory holds its earlier files and one file per fleet name |
| FleetFiles.WrittenKeepsOthers | process_fleet_data.py:56-60 | a file that no fleet's name maps to keeps its earlier contents |
| FleetFiles.WrittenLastWins | process_fleet_data.py:56-60 | a file holds the group of the last fleet written to it |
| FleetFiles.SortedLastWins | process_fleet_data.py:56-60 | when fleets come in ascending order, a shared file holds the group of the greatest fleet mapping to it |
| FleetFiles.WrittenSpec | process_fleet_data.py:56-60 | the directory after the loop: the files present, the untouched files, and the contents of each fleet's file |
| FleetFiles.WriteFleetFiles | process_fleet_data.py:56-60 | the loop writes every group to its derived name in group order, each step updating exactly that group's file (WrittenStep). The resulting directory is the one `Written` describes, with the same files, untouched files and overwrites as `WrittenSpec` |
| FleetData.CombinedCashColumns | process_fleet_data.py:22-46 | the combined table's key and cash columns are exactly the cash summary of the completed rows |
| FleetData.JoinCashColumns | process_fleet_data.py:46 | the left join keeps the summary's keys, order and sums |
| FleetData.CombinedTokenColumns | process_fleet_data.py:32-46 | the combined table's token columns: no "cash" column, ascending, occurrence counts for paying keys, missing cells for the others |
| FleetData.ProcessFile | process_fleet_data.py:10-60 | `process_file`: from the trips, the combined table of the completed trips has exactly the cash columns and token columns above; the output directory is the one the per-fleet loop writes |

## Left out

- CSV reading and writing are file I/O. That covers `read_csv` (line 11), the two `to_csv` calls (lines 50 and 60),
  `os.makedirs` and `os.path.join` (lines 54 and 59).
  - The trips arrive as a sequence of records.
  - The all-fleets table is returned, not written to `Detailed_Payment_Summary_All_Fleets.csv`.
  - The output directory is a map from file name to table.
- FleetFiles.Written: the output directory is a map keyed by the exact file name string. What `os.path.join` and
  the file system do to a name is not modelled. On a case-insensitive file system, "North Fleet" and "north fleet"
  write the same file, which the model treats as two files. A '/' in a fleet name is not read as a path separator:
  the program would target a sub-directory, which `to_csv` fails on when it is missing. A leading '/' would make
  `os.path.join` drop `fleet_summary`. The collision and untouched-file lemmas hold for exact names only.
- The tkinter window, the file dialog, `select_file` and the message box (lines 4-5, 70, 72-75, 106-114) are user
  interface.
- The commented-out zip archive (lines 62-68) is dead code.
- Trips.CashAmount: the float conversion of the cash column and the rounding of float sums are left out. Amounts are
  exact `real` numbers that are already parsed. A non-numeric cash text, which makes `astype(float)` raise, is not
  modelled.
- The exact behaviour of `replace('-', None)` differs between pandas versions. The model follows the comments at lines
  22 and 32: `-` becomes a missing value.
- The `contracts` dictionary (lines 78-85) is never read by the program and is not modelled.
- The column order of the written files is not modelled:
  - key columns, then `cash`, then one column per token;
  - the dtypes of the written cells, such as a joined count becoming a float once a cell is missing.
- pandas raises on an empty frame or on a payment column whose cells are all missing (the `.str` accessor needs strings).
  Error paths that belong to the library are not modelled. The model answers with empty tables instead.
- The rider ID and rider name columns are never read. The model drops them when a trip becomes a row; it does not carry
  and then delete them.
- The embedded contract table is kept as a constant, but only one lookup into it is proved. The inversion is proved
  generically for any table.
