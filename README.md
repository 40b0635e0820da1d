# google-sheets-sync: the reconciliation pass, modelled in Dafny

This project models the one logical operation of `db.py`: `sync_data`.
It reconciles a `student` table (`name`, `reg_no PRIMARY KEY`) with a two-column Google Sheet
(`Name`, `Registration No`). One pass:

1. snapshots the table into a dictionary `reg_no -> name`;
2. reads the sheet into a second dictionary, skipping the header row and every row with fewer than two cells, a later row overriding an earlier one with the same `reg_no`;
3. inserts every sheet key the snapshot lacks, and updates every key whose snapshot name differs from the sheet's (exact string comparison);
4. asks the operator about every snapshot key the sheet lacks, and deletes it only when the answer, lower-cased, is `"y"`;
5. selects the whole table again and writes the header followed by every row back to the sheet.

Modules:

- `Records` (`records.dfy`): registration numbers, names, snapshots and `Student` rows, and the dictionary built from selected rows.
- `SheetValues` (`sheet_values.dfy`): sheet rows as `seq<seq<string>>`, the sheet snapshot `SheetMap`, and the values pushed back (`PushedSheet`). The sheet-reading loop of `sync_data` is the method `BuildSheetMap`, proved equal to `SheetMap`.
- `Reconcile` (`reconcile.dfy`): the decision rules as a pure plan (`Diff`), the converged table (`Upserted`), the confirmation test (`Affirmative`), and the table a finished pass leaves (`Reconciled`), with the lemmas about them.
- `StudentDb` (`student_table.dfy`): the `student` table as a class whose `rows: map<RegNo, Name>` field the `INSERT`, `UPDATE` and `DELETE` methods change in place. `SelectAll` returns the full listing.
- `SyncPass` (`sync_pass.dfy`): the pass itself. The insert-or-update loop (`ApplySheet`) is proved against `Reconcile.Upserted` and `Reconcile.Diff`, and the deletion loop (`ConfirmDeletions`) against `Reconcile.Confirmed`.

The operator's prompt is a parameter `answer: RegNo -> string`: the text typed when asked about that key.
The sheet read is a parameter `data`, and the sheet write is the returned `pushed` value.

## Model

| member | source | states |
|---|---|---|
| Records.SnapshotOf | db.py:100 | every selected row's key is in the dictionary, and every key maps to the name of some row carrying it |
| Records.ListedSnapshot | db.py:99-100 | the dictionary built from a full listing of the table is exactly the table, so the pre-pass snapshot equals the table state |
| StudentDb.StudentTable.Insert | db.py:47-49 | inserting a key that the primary key (db.py:42) has not yet taken adds exactly that row and grows the table by one |
| StudentDb.StudentTable.Update | db.py:52-55 | only that key's name changes, no key is added or removed, and an absent key leaves the table as it was |
| StudentDb.StudentTable.Delete | db.py:58-61 | exactly that key's row is removed, if it exists |
| StudentDb.StudentTable.SelectAll | db.py:70-73 | the selected rows list every table entry exactly once with its name, and nothing else |
| SheetValues.BuildSheetMap | db.py:106-109 | the loop over the rows after the header builds exactly the sheet snapshot `SheetMap` |
| SheetValues.SheetMapKeys | db.py:107-109 | a key is in the sheet snapshot if and only if some row other than the first has at least two cells and carries it in its second cell |
| SheetValues.SheetMapLastWins | db.py:109 | when several rows carry the same key, the snapshot holds the name from the last such row |
| SheetValues.SheetMapSkipsShortRow | db.py:108 | a row with fewer than two cells, anywhere after the first row, adds nothing to the snapshot |
| SheetValues.SheetMapSkipsFirstRow | db.py:107 | the first row is never read as data, whatever it contains |
| SheetValues.PushedSheetMirrorsTable | db.py:77-81 | the pushed values are the header followed by one two-cell `[name, reg_no]` row per table entry and no other rows, and reading them back gives the table |
| Reconcile.DiffClassifiesKeys | db.py:112-120 | a sheet key is inserted if and only if it is missing from the snapshot. It is updated if and only if it is present with a different name, never both, and always with the sheet's name. Deletion candidates are exactly the snapshot keys missing from the sheet |
| Reconcile.UpsertedConverges | db.py:112-116 | after the inserts and updates, every sheet key holds the sheet's name, and every other key keeps its snapshot entry (presence and name) |
| Reconcile.NothingToUpsertIff | db.py:112-116 | the plan has no inserts and no updates if and only if every sheet entry is already in the table with the same name |
| Reconcile.DiffIdempotent | db.py:112-116 | re-diffing the converged table against the same sheet gives no inserts, no updates and the same deletion candidates |
| Reconcile.Lower | db.py:123 | lower-casing keeps the length and lowers each character |
| Reconcile.AffirmativeIff | db.py:123 | an answer confirms a deletion if and only if it is `"y"` or `"Y"` |
| Reconcile.ReconciledHoldsSheet | db.py:112-124 | after a pass every sheet entry is in the table with the sheet's name, and every table key was in the snapshot or on the sheet |
| Reconcile.DeletionSafety | db.py:119-124 | a snapshot key is gone after the pass if and only if it is missing from the sheet and its answer is affirmative. A declined key keeps its name |
| Reconcile.AllConfirmedMirrorsSheet | db.py:119-124 | if every offered deletion is confirmed, the table ends up equal to the sheet snapshot |
| Reconcile.NewStudentScenario | db.py:112-116 | table `{1: Alice}` against sheet `{1: Alice, 2: Bob}` gives one insert `(2, Bob)`, no updates and no deletion candidates |
| Reconcile.RenameAndDeclineScenario | db.py:112-124 | table `{1: Alice, 2: Bob}` against sheet `{1: Alicia}` gives one update and one deletion candidate. Answering `"n"` keeps `2: Bob` |
| SyncPass.UpsertEntry | db.py:113-116 | one loop step inserts when the snapshot lacks the key, updates when the names differ, and in every case leaves the key holding the sheet's name |
| SyncPass.ApplySheet | db.py:112-116 | the loop inserts exactly the plan's inserts and updates exactly the plan's updates (every insert meets the primary-key precondition), and leaves the table converged on the sheet |
| SyncPass.ConfirmDeletions | db.py:119-124 | the loop deletes exactly the deletion candidates whose answer is affirmative and changes nothing else |
| SyncPass.SyncDbToSheets | db.py:75-92 | the written values are the header and then one row per table entry with distinct keys, and they read back as the table |
| SyncPass.SyncData | db.py:97-127 | the table after the pass is `Reconciled(old table, sheet snapshot, answers)`. The values pushed to the sheet are the header and then one two-cell `[name, reg_no]` row per table entry with distinct keys, and they read back as that table |

## Left out

- Credential loading, the Sheets client and the MySQL connection (db.py:8-44) are configuration and foreign library calls. Of the `CREATE TABLE`, only the primary key on `reg_no` is kept, as `Insert`'s precondition.
- The Sheets API calls (db.py:65-67, db.py:87-92) are remote I/O. The model takes the read values as `data` and returns the written values as `pushed`. The read range `Sheet1!A1:B10` (so at most ten rows are seen) and the write range `Sheet1!A1:B` are not modelled. The API behaviour of keeping cells below the written block is not modelled either.
- `db.commit()`, every `print` and the `input()` prompt are not modelled. The prompt is replaced by the parameter `answer`.
- The order in which the Python dictionaries are iterated, and the row order of `SELECT`, are not modelled. The loops pick keys in any order, and the final table does not depend on that order. The order of prompts and printed lines is therefore not captured.
- Reconcile.Lower: lower-cases ASCII `A`–`Z` only, where Python's `str.lower` applies full Unicode case mapping. This changes nothing for the test against `"y"`, because no character other than `Y` lower-cases to `y`.
- StudentDb.StudentTable.Insert: a taken key makes MySQL raise an error that ends the whole pass. The model requires the key to be free instead, and `ApplySheet` proves that the pass never inserts a taken key.
- Keys compare by exact string equality, as the Python dictionaries do. This is not captured: MySQL 8's default collation `utf8mb4_0900_ai_ci` compares `VARCHAR` keys ignoring case and accents, and PAD SPACE collations such as `utf8mb4_general_ci` or `latin1_swedish_ci` also ignore trailing spaces. Keys such as `"a1"`/`"A1"`, `"e1"`/`"é1"` or `"1"`/`"1 "` are then distinct to the Python dictionaries but collide on the primary key. `insert_data` raises, and the pass ends after the earlier statements were committed.
- `NULL` names in the table and the `VARCHAR(255)` length limit are not modelled.
- Database and API exceptions are not modelled. The source catches none of them, so any such error ends the pass.
- The design for this system describes a sync report, per-record failure isolation and `StoreUnavailable`/`PushBackFailed` error kinds. `db.py` has none of these, and the model follows the code.
- The same design states that after a pass the table holds a record exactly when the sheet does. In the code, that holds only when every offered deletion is confirmed (`AllConfirmedMirrorsSheet`). A declined deletion keeps the row (`DeletionSafety`).
