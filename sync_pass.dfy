/**
 * One reconciliation pass: snapshot the table, read the sheet, insert and
 * update from the sheet, delete what the operator confirms, and write the
 * resulting table back to the sheet.
 */
module SyncPass {
  import opened Records
  import opened SheetValues
  import opened Reconcile
  import opened StudentDb

  /** The entries of `sheet` whose keys are in `done`. */
  ghost function Restrict(sheet: Snapshot, done: set<RegNo>): Snapshot {
    map k | k in sheet && k in done :: sheet[k]
  }

  /** Taking one more sheet key sets that key to the sheet's name. */
  lemma RestrictGrows(snapshot: Snapshot, sheet: Snapshot, done: set<RegNo>, k: RegNo)
    requires k in sheet
    ensures snapshot + Restrict(sheet, done + {k}) == (snapshot + Restrict(sheet, done))[k := sheet[k]]
  {
  }

  /**
   * One step of the insert-or-update loop for the sheet entry `regNo`,
   * `name`: an insert when the snapshot lacks the key, an update when the
   * snapshot's name differs, nothing otherwise. Either way the key ends up
   * holding `name`.
   */
  method UpsertEntry(table: StudentTable, snapshot: Snapshot, regNo: RegNo, name: Name)
      returns (ghost isInsert: bool, ghost isUpdate: bool)
    requires regNo in table.rows <==> regNo in snapshot
    requires regNo in snapshot ==> table.rows[regNo] == snapshot[regNo]
    modifies table
    ensures isInsert <==> regNo !in snapshot
    ensures isUpdate <==> regNo in snapshot && snapshot[regNo] != name
    ensures table.rows == old(table.rows)[regNo := name]
  {
    isInsert, isUpdate := false, false;
    if regNo !in snapshot {
      table.Insert(name, regNo);
      isInsert := true;
    } else if snapshot[regNo] != name {
      table.Update(name, regNo);
      isUpdate := true;
    } else {
      assert table.rows == table.rows[regNo := name];
    }
  }

  /**
   * The insert-or-update loop: each sheet key missing from the snapshot is
   * inserted, each whose snapshot name differs is updated, the rest are left
   * alone. Decisions read the snapshot taken before the loop, not the table.
   */
  method ApplySheet(table: StudentTable, snapshot: Snapshot, sheet: Snapshot)
      returns (ghost inserted: set<RegNo>, ghost updated: set<RegNo>)
    requires table.rows == snapshot
    modifies table
    ensures table.rows == Upserted(snapshot, Diff(snapshot, sheet))
    ensures inserted == Diff(snapshot, sheet).inserts.Keys
    ensures updated == Diff(snapshot, sheet).updates.Keys
  {
    inserted, updated := {}, {};
    var left := sheet.Keys;
    ghost var done: set<RegNo> := {};
    assert Restrict(sheet, done) == map[];
    while left != {}
      invariant left <= sheet.Keys && done == sheet.Keys - left
      invariant table.rows == snapshot + Restrict(sheet, done)
      invariant inserted == set k | k in done && k !in snapshot
      invariant updated == set k | k in done && k in snapshot && snapshot[k] != sheet[k]
      decreases left
    {
      var regNo :| regNo in left;
      RestrictGrows(snapshot, sheet, done, regNo);
      ghost var isInsert, isUpdate := UpsertEntry(table, snapshot, regNo, sheet[regNo]);
      if isInsert {
        inserted := inserted + {regNo};
      }
      if isUpdate {
        updated := updated + {regNo};
      }
      left := left - {regNo};
      done := done + {regNo};
    }
    assert Restrict(sheet, done) == sheet;
    UpsertedConverges(snapshot, sheet);
  }

  /**
   * The deletion loop: each snapshot key missing from the sheet is offered
   * to the operator and deleted only when the answer lower-cases to `"y"`.
   */
  method ConfirmDeletions(table: StudentTable, snapshot: Snapshot, sheet: Snapshot, answer: RegNo -> string)
      returns (ghost deleted: set<RegNo>)
    modifies table
    ensures deleted == Confirmed(snapshot, sheet, answer)
    ensures table.rows == old(table.rows) - deleted
  {
    deleted := {};
    var left := snapshot.Keys;
    while left != {}
      invariant left <= snapshot.Keys
      invariant deleted == set k | k in snapshot && k !in left && k !in sheet && Affirmative(answer(k))
      invariant table.rows == old(table.rows) - deleted
      decreases left
    {
      var regNo :| regNo in left;
      if regNo !in sheet {
        var confirmation := answer(regNo);
        if Affirmative(confirmation) {
          table.Delete(regNo);
          deleted := deleted + {regNo};
        }
      }
      left := left - {regNo};
    }
  }

  /**
   * The push-back: select the whole table and write the header followed by
   * its rows. Read back, those values are the table.
   */
  method SyncDbToSheets(table: StudentTable) returns (pushed: seq<Row>)
    ensures |pushed| == |table.rows| + 1 && pushed[0] == Header
    ensures forall i :: 1 <= i < |pushed| ==>
      |pushed[i]| == 2 && pushed[i][1] in table.rows && pushed[i][0] == table.rows[pushed[i][1]]
    ensures forall i, j :: 1 <= i < j < |pushed| ==> pushed[i][1] != pushed[j][1]
    ensures SheetMap(pushed) == table.rows
  {
    var rows := table.SelectAll();
    pushed := PushedSheet(rows);
    PushedSheetMirrorsTable(rows, table.rows);
    RecordRowsShape(rows);
    forall i, j | 1 <= i < j < |pushed| ensures pushed[i][1] != pushed[j][1] {
      assert pushed[i] == RecordRows(rows)[i - 1];
      assert pushed[j] == RecordRows(rows)[j - 1];
    }
  }

  /**
   * One full pass over the table and the sheet values `data`, with the
   * operator's answer for each offered deletion given by `answer`. Returns
   * the values written back to the sheet.
   */
  method SyncData(table: StudentTable, data: seq<Row>, answer: RegNo -> string) returns (pushed: seq<Row>)
    modifies table
    ensures table.rows == Reconciled(old(table.rows), SheetMap(data), answer)
    ensures |pushed| == |table.rows| + 1 && pushed[0] == Header
    ensures forall i :: 1 <= i < |pushed| ==>
      |pushed[i]| == 2 && pushed[i][1] in table.rows && pushed[i][0] == table.rows[pushed[i][1]]
    ensures forall i, j :: 1 <= i < j < |pushed| ==> pushed[i][1] != pushed[j][1]
    ensures SheetMap(pushed) == table.rows
  {
    var existing := table.SelectAll();
    var snapshot := SnapshotOf(existing);
    ListedSnapshot(existing, table.rows);
    var sheet := BuildSheetMap(data);
    ghost var inserted, updated := ApplySheet(table, snapshot, sheet);
    ghost var deleted := ConfirmDeletions(table, snapshot, sheet, answer);
    pushed := SyncDbToSheets(table);
  }
}
